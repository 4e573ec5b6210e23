/** Dotted module names: Python's `name.split('.')` and `'.'.join(path)`. */
module Dotted {

  /** `s.split('.')`: the pieces between the dots, in order; "" gives [""]. */
  function Split(s: string): (r: seq<string>)
    ensures |r| >= 1
    ensures forall i | 0 <= i < |r| :: '.' !in r[i]
  {
    if s == [] then [""]
    else
      var rest := Split(s[1..]);
      if s[0] == '.' then [""] + rest
      else [[s[0]] + rest[0]] + rest[1..]
  }

  /** `'.'.join(segs)`: the segments separated by single dots; [] gives "". */
  function Join(segs: seq<string>): (r: string)
    ensures segs == [] ==> r == ""
    ensures |segs| == 1 ==> r == segs[0]
    ensures |segs| >= 2 ==> segs[0] + "." <= r
  {
    if |segs| == 0 then ""
    else if |segs| == 1 then segs[0]
    else segs[0] + "." + Join(segs[1..])
  }

  /** Joining the pieces of a split gives back the original name. */
  lemma {:induction false} JoinSplit(s: string)
    ensures Join(Split(s)) == s
  {
    if s != [] {
      var rest := Split(s[1..]);
      JoinSplit(s[1..]);
      if s[0] != '.' && |rest| > 1 {
        assert Join(rest) == rest[0] + "." + Join(rest[1..]);
        assert Join(Split(s)) == ([s[0]] + rest[0]) + "." + Join(rest[1..]);
      }
    }
  }

  /** A name without dots is one segment. */
  lemma {:induction false} SplitWithoutDot(a: string)
    requires '.' !in a
    ensures Split(a) == [a]
  {
    if a != [] {
      assert a[0] != '.';
      assert '.' !in a[1..];
      SplitWithoutDot(a[1..]);
      assert [a[0]] + a[1..] == a;
    }
  }

  /** A dot ends the first segment when the part before it has no dot. */
  lemma {:induction false} SplitAtFirstDot(a: string, b: string)
    requires '.' !in a
    ensures Split(a + "." + b) == [a] + Split(b)
  {
    if a == [] {
      assert a + "." + b == "." + b;
      assert ("." + b)[1..] == b;
    } else {
      SplitAtFirstDot(a[1..], b);
      assert (a + "." + b)[1..] == a[1..] + "." + b;
      assert [a[0]] + a[1..] == a;
    }
  }

  /** Splitting a joined path of dot-free segments gives back the path. */
  lemma {:induction false} SplitJoin(segs: seq<string>)
    requires |segs| >= 1
    requires forall i | 0 <= i < |segs| :: '.' !in segs[i]
    ensures Split(Join(segs)) == segs
  {
    if |segs| == 1 {
      SplitWithoutDot(segs[0]);
    } else {
      SplitJoin(segs[1..]);
      SplitAtFirstDot(segs[0], Join(segs[1..]));
      assert [segs[0]] + segs[1..] == segs;
    }
  }
}
