/** Python's whitespace `split` and `" ".join`.  Matrix entries carry their target and drv lists as
    space-joined strings; the model keeps the lists, and `SplitJoin` says when that is the same. */
module Words {

  import opened Fields

  /** Characters for which Python's `str.isspace` holds. */
  predicate IsSpace(c: char)
  {
    var x := c as int;
    || 0x09 <= x <= 0x0d || 0x1c <= x <= 0x20 || x == 0x85 || x == 0xa0 || x == 0x1680
    || 0x2000 <= x <= 0x200a || x == 0x2028 || x == 0x2029 || x == 0x202f || x == 0x205f || x == 0x3000
  }

  /** The same characters, one by one: the controls and separators of ASCII, and the spaces of Unicode. */
  lemma SpacesAre(c: char)
    ensures IsSpace(c) <==> c as int in [9, 10, 11, 12, 13, 28, 29, 30, 31, 32, 133, 160, 5760, 8192, 8193, 8194, 8195, 8196, 8197, 8198,
                                         8199, 8200, 8201, 8202, 8232, 8233, 8239, 8287, 12288]
  {
  }

  predicate IsWord(w: string)
  {
    w != "" && forall i :: 0 <= i < |w| ==> !IsSpace(w[i])
  }

  /** `s.split()`: the word being read is `word`. */
  function SplitFrom(s: string, word: string): seq<string>
  {
    if s == "" then (if word == "" then [] else [word])
    else if IsSpace(s[0]) then (if word == "" then [] else [word]) + SplitFrom(s[1..], "")
    else SplitFrom(s[1..], word + [s[0]])
  }

  function Split(s: string): seq<string>
  {
    SplitFrom(s, "")
  }

  lemma {:induction false} SplitReadsWord(w: string, rest: string, word: string)
    requires forall i :: 0 <= i < |w| ==> !IsSpace(w[i])
    ensures SplitFrom(w + rest, word) == SplitFrom(rest, word + w)
  {
    if w == "" {
      assert w + rest == rest && word + w == word;
    } else {
      assert (w + rest)[0] == w[0] && (w + rest)[1..] == w[1..] + rest;
      SplitReadsWord(w[1..], rest, word + [w[0]]);
      assert word + [w[0]] + w[1..] == word + w;
    }
  }

  lemma {:induction false} SplitYieldsWords(s: string, word: string)
    requires forall i :: 0 <= i < |word| ==> !IsSpace(word[i])
    ensures forall w :: w in SplitFrom(s, word) ==> IsWord(w)
  {
    if s != "" {
      if IsSpace(s[0]) {
        SplitYieldsWords(s[1..], "");
      } else {
        SplitYieldsWords(s[1..], word + [s[0]]);
      }
    }
  }

  lemma {:induction false} SplitJoinWords(ws: seq<string>)
    requires forall w :: w in ws ==> IsWord(w)
    ensures Split(JoinOn(ws, ' ')) == ws
  {
    if |ws| == 1 {
      assert ws[0] in ws;
      assert ws[0] + "" == ws[0] && "" + ws[0] == ws[0];
      SplitReadsWord(ws[0], "", "");
      assert ws == [ws[0]];
    } else if |ws| > 1 {
      assert ws[0] in ws;
      var tail := " " + JoinOn(ws[1..], ' ');
      assert JoinOn(ws, ' ') == ws[0] + tail;
      SplitReadsWord(ws[0], tail, "");
      assert "" + ws[0] == ws[0];
      assert IsSpace(tail[0]) && tail[1..] == JoinOn(ws[1..], ' ');
      SplitJoinWords(ws[1..]);
      assert ws == [ws[0]] + ws[1..];
    }
  }

  /** Splitting undoes joining exactly when every name is a non-empty run without whitespace. */
  lemma SplitJoin(ws: seq<string>)
    ensures Split(JoinOn(ws, ' ')) == ws <==> forall w :: w in ws ==> IsWord(w)
  {
    SplitYieldsWords(JoinOn(ws, ' '), "");
    if forall w :: w in ws ==> IsWord(w) {
      SplitJoinWords(ws);
    }
  }
}
