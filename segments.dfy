/** Go's strings.Split and strings.Join with the separator "/". */
module Segments {

  /** The number of '/' characters in s. */
  function Slashes(s: string): nat
  {
    if s == [] then 0 else (if s[0] == '/' then 1 else 0) + Slashes(s[1..])
  }

  /** The pieces of s between its slashes; the empty string splits into one empty piece. */
  function Split(s: string): (pieces: seq<string>)
    ensures |pieces| >= 1
  {
    if s == [] then [[]]
    else
      var rest := Split(s[1..]);
      if s[0] == '/' then [[]] + rest
      else [[s[0]] + rest[0]] + rest[1..]
  }

  /** The pieces, with a slash between each two neighbours. */
  function Join(pieces: seq<string>): string
  {
    if pieces == [] then []
    else if |pieces| == 1 then pieces[0]
    else pieces[0] + "/" + Join(pieces[1..])
  }

  /** Split yields one piece more than there are slashes. */
  lemma {:induction false} SplitLength(s: string)
    ensures |Split(s)| == Slashes(s) + 1
  {
    if s != [] {
      SplitLength(s[1..]);
    }
  }

  /** No piece of Split contains the separator. */
  lemma {:induction false} SplitPiecesHaveNoSlash(s: string)
    ensures forall i :: 0 <= i < |Split(s)| ==> '/' !in Split(s)[i]
  {
    if s != [] {
      SplitPiecesHaveNoSlash(s[1..]);
    }
  }

  /** Joining the pieces of s gives back s. */
  lemma {:induction false} JoinSplit(s: string)
    ensures Join(Split(s)) == s
  {
    if s != [] {
      var rest := Split(s[1..]);
      JoinSplit(s[1..]);
      if s[0] != '/' && |rest| > 1 {
        assert Join(rest) == rest[0] + "/" + Join(rest[1..]);
      }
    }
  }

  /** A word without slashes, followed by t, splits as t does with the word glued to its first piece. */
  lemma {:induction false} SplitAfterWord(p: string, t: string)
    requires '/' !in p
    ensures Split(p + t) == [p + Split(t)[0]] + Split(t)[1..]
  {
    if p != [] {
      SplitAfterWord(p[1..], t);
      assert (p + t)[1..] == p[1..] + t;
      assert [p[0]] + (p[1..] + Split(t)[0]) == p + Split(t)[0];
    } else {
      assert p + t == t && p + Split(t)[0] == Split(t)[0];
      assert Split(t) == [Split(t)[0]] + Split(t)[1..];
    }
  }

  /** Splitting the join of slash-free pieces gives back the pieces. */
  lemma {:induction false} SplitJoin(pieces: seq<string>)
    requires |pieces| >= 1
    requires forall i :: 0 <= i < |pieces| ==> '/' !in pieces[i]
    ensures Split(Join(pieces)) == pieces
  {
    if |pieces| == 1 {
      SplitAfterWord(pieces[0], []);
      assert pieces[0] + [] == pieces[0];
    } else {
      var u := Join(pieces[1..]);
      SplitJoin(pieces[1..]);
      assert ("/" + u)[1..] == u;
      assert Split("/" + u) == [[]] + Split(u);
      SplitAfterWord(pieces[0], "/" + u);
      assert pieces[0] + "/" + u == pieces[0] + ("/" + u);
      assert pieces[0] + [] == pieces[0];
    }
  }

  /** A string splits into fewer than two pieces exactly when it has no slash. */
  lemma {:induction false} SplitSingle(s: string)
    ensures |Split(s)| < 2 <==> '/' !in s
  {
    SplitLength(s);
    NoSlashesIff(s);
  }

  lemma {:induction false} NoSlashesIff(s: string)
    ensures Slashes(s) == 0 <==> '/' !in s
  {
    if s != [] {
      NoSlashesIff(s[1..]);
      assert s == [s[0]] + s[1..];
    }
  }
}
