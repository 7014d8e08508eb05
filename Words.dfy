/**
 * Joining words with single spaces, and splitting a string at its spaces,
 * which undoes the join for words that contain no space.
 */
module Words {

  predicate NoSpace(w: string) {
    forall i :: 0 <= i < |w| ==> w[i] != ' '
  }

  /** The words separated by single spaces. */
  function Join(ws: seq<string>): string {
    if ws == [] then ""
    else if |ws| == 1 then ws[0]
    else ws[0] + " " + Join(ws[1..])
  }

  /** The pieces of `s` between spaces; `cur` is the piece read so far. */
  function SplitFrom(s: string, cur: string): (ws: seq<string>)
    ensures |ws| >= 1
  {
    if s == [] then [cur]
    else if s[0] == ' ' then [cur] + SplitFrom(s[1..], "")
    else SplitFrom(s[1..], cur + [s[0]])
  }

  function Split(s: string): seq<string> {
    SplitFrom(s, "")
  }

  /** Joining two non-empty word lists puts one space between their joins. */
  lemma {:induction false} JoinAppend(xs: seq<string>, ys: seq<string>)
    requires xs != [] && ys != []
    ensures Join(xs + ys) == Join(xs) + " " + Join(ys)
  {
    if |xs| > 1 {
      JoinAppend(xs[1..], ys);
      assert (xs + ys)[1..] == xs[1..] + ys;
    }
  }

  /** The join of words that are all non-empty is empty only when there are none. */
  lemma JoinEmpty(ws: seq<string>)
    requires forall i :: 0 <= i < |ws| ==> ws[i] != []
    ensures Join(ws) == [] <==> ws == []
  {
  }

  lemma {:induction false} SplitFromWord(w: string, rest: string, cur: string)
    requires NoSpace(w)
    ensures SplitFrom(w + rest, cur) == SplitFrom(rest, cur + w)
    decreases |w|
  {
    if w == [] {
      assert w + rest == rest && cur + w == cur;
    } else {
      assert (w + rest)[0] == w[0];
      assert (w + rest)[1..] == w[1..] + rest;
      SplitFromWord(w[1..], rest, cur + [w[0]]);
      assert cur + [w[0]] + w[1..] == cur + w;
    }
  }

  /** Splitting undoes joining, for a non-empty list of words without spaces. */
  lemma {:induction false} SplitJoin(ws: seq<string>)
    requires ws != []
    requires forall i :: 0 <= i < |ws| ==> NoSpace(ws[i])
    ensures Split(Join(ws)) == ws
  {
    if |ws| == 1 {
      SplitFromWord(ws[0], "", "");
      assert ws[0] + "" == ws[0];
      assert "" + ws[0] == ws[0];
    } else {
      var rest := " " + Join(ws[1..]);
      assert Join(ws) == ws[0] + rest;
      SplitFromWord(ws[0], rest, "");
      assert "" + ws[0] == ws[0];
      assert rest[0] == ' ' && rest[1..] == Join(ws[1..]);
      SplitJoin(ws[1..]);
    }
  }
}
