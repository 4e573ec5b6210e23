/**
 * The two self-contained steps of `_build_hierarchy`: shifting a subtree's
 * levels so that a shared node lines up, and normalising so the smallest
 * level is 0. Levels live in a `defaultdict(int)`: reading a missing node gives 0.
 */
module Levels {

  /** `hierarchy[node]` on a `defaultdict(int)`. */
  function Level(h: map<string, int>, node: string): (r: int)
    ensures node !in h ==> r == 0
    ensures node in h ==> r == h[node]
  {
    if node in h then h[node] else 0
  }

  /** Every node of `group` lowered by `offset` (missing ones start at 0); the rest unchanged. */
  function Shifted(h: map<string, int>, group: set<string>, offset: int): (r: map<string, int>)
    ensures r.Keys == h.Keys + group
  {
    map n | n in h.Keys + group :: if n in group then Level(h, n) - offset else h[n]
  }

  /** Lowering one more node of `group` extends the shift by that node. */
  lemma ShiftedStep(h: map<string, int>, done: set<string>, n: string, offset: int)
    requires n !in done
    ensures Shifted(h, done, offset)[n := Level(Shifted(h, done, offset), n) - offset]
         == Shifted(h, done + {n}, offset)
  {
    var s := Shifted(h, done, offset);
    assert Level(s, n) == Level(h, n);
  }

  /**
   * The shift of a subtree at a shared node: with `offset` the node's
   * recorded level minus its level in the current traversal, the node ends
   * at that level, the subtree keeps its internal level differences, and no
   * other node moves.
   */
  lemma ShiftAlignsSharedNode(h: map<string, int>, group: set<string>, shared: string, level: int)
    requires shared in group
    ensures var s := Shifted(h, group, Level(h, shared) - level);
      && s[shared] == level
      && (forall a, b | a in group && b in group :: s[a] - s[b] == Level(h, a) - Level(h, b))
      && (forall n | n in h && n !in group :: s[n] == h[n])
  {
  }

  /** `lo` is the smallest level of a non-empty hierarchy. */
  ghost predicate IsMinimum(h: map<string, int>, lo: int)
  {
    (exists n :: n in h && h[n] == lo) && forall n | n in h :: lo <= h[n]
  }

  /**
   * Normalisation: subtracting the minimum from every level leaves the same
   * nodes, every level at least 0, some level exactly 0, and all
   * differences between levels as they were.
   */
  lemma NormalisedFromZero(h: map<string, int>, lo: int)
    requires IsMinimum(h, lo)
    ensures var s := Shifted(h, h.Keys, lo);
      && s.Keys == h.Keys
      && (forall n | n in s :: s[n] >= 0)
      && (exists n :: n in s && s[n] == 0)
      && (forall a, b | a in s && b in s :: s[a] - s[b] == h[a] - h[b])
  {
    var s := Shifted(h, h.Keys, lo);
    var w :| w in h && h[w] == lo;
    assert s[w] == 0;
  }
}
