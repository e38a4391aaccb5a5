/** Reading words from a text, as the extraction operator of a C++ stream does. */
module TextStreams {

  predicate IsSpace(c: char) {
    c in " \t\n\U{0B}\U{0C}\r"
  }

  predicate IsWord(w: string) {
    w != "" && forall i | 0 <= i < |w| :: !IsSpace(w[i])
  }

  /** Each word followed by a space. */
  function Spaced(words: seq<string>): string {
    if words == [] then "" else words[0] + " " + Spaced(words[1..])
  }

  /** The length of the word at the front of a text. */
  function WordLength(s: string): (n: nat)
    ensures n <= |s|
  {
    if s == "" || IsSpace(s[0]) then 0 else 1 + WordLength(s[1..])
  }

  /** Reading words from a stream: white space is skipped, then characters are taken up to the next white space. */
  function ReadWords(s: string): seq<string>
    decreases |s|
  {
    if s == "" then []
    else if IsSpace(s[0]) then ReadWords(s[1..])
    else
      var n := WordLength(s);
      [s[..n]] + ReadWords(s[n..])
  }

  lemma {:induction false} WordLengthOf(w: string, rest: string)
    requires forall i | 0 <= i < |w| :: !IsSpace(w[i])
    requires rest == "" || IsSpace(rest[0])
    ensures WordLength(w + rest) == |w|
  {
    if w == "" {
      assert w + rest == rest;
    } else {
      assert (w + rest)[1..] == w[1..] + rest;
      WordLengthOf(w[1..], rest);
    }
  }

  /** Dropping the last space of the text, as the source does, leaves the words in place. */
  lemma {:induction false} ReadSpaced(words: seq<string>)
    requires words != [] && forall w | w in words :: IsWord(w)
    ensures |Spaced(words)| > 0
    ensures ReadWords(Spaced(words)[..|Spaced(words)| - 1]) == words
  {
    var w := words[0];
    assert IsWord(w);
    var text := Spaced(words);
    var seed := text[..|text| - 1];
    if |words| == 1 {
      assert Spaced(words[1..]) == "" && text == w + " " + "";
      assert seed == w && w + "" == w;
      WordLengthOf(w, "");
      assert seed[..|w|] == w && seed[|w|..] == "";
    } else {
      ReadSpaced(words[1..]);
      var rest := Spaced(words[1..]);
      var tail := " " + rest[..|rest| - 1];
      assert seed == w + tail;
      WordLengthOf(w, tail);
      assert seed[..|w|] == w && seed[|w|..] == tail;
      assert tail[1..] == rest[..|rest| - 1];
    }
  }
}
