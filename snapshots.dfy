/** The abstract meaning of a fixed-capacity history: after a sequence of pushes
    into a buffer of capacity `cap`, it holds the last `min(n, cap)` pushed items,
    and reads them back newest first. */
module Snapshots {

  function Min(a: nat, b: nat): (m: nat)
    ensures m <= a && m <= b && (m == a || m == b)
  {
    if a < b then a else b
  }

  /** The elements of `s`, last first. */
  function Reverse<T>(s: seq<T>): (r: seq<T>)
    ensures |r| == |s|
  {
    if |s| == 0 then [] else [s[|s| - 1]] + Reverse(s[..|s| - 1])
  }

  /** The pushed items a buffer of capacity `cap` still holds, oldest first. */
  function Retained<T>(pushed: seq<T>, cap: nat): (r: seq<T>)
    ensures |r| == Min(|pushed|, cap) && r == pushed[|pushed| - |r|..]
  {
    pushed[|pushed| - Min(|pushed|, cap)..]
  }

  /** What `toArray()` returns after `pushed`: the retained items, newest first. */
  function Snapshot<T>(pushed: seq<T>, cap: nat): (r: seq<T>)
    ensures |r| == Min(|pushed|, cap) && |r| <= cap
  {
    Reverse(Retained(pushed, cap))
  }

  lemma {:induction false} ReverseAt<T>(s: seq<T>, k: nat)
    requires k < |s|
    ensures Reverse(s)[k] == s[|s| - 1 - k]
  {
    if k > 0 {
      ReverseAt(s[..|s| - 1], k - 1);
    }
  }

  /** Entry `age` of a snapshot is the item pushed `age` pushes before the latest. */
  lemma SnapshotAt<T>(pushed: seq<T>, cap: nat, age: nat)
    requires age < Min(|pushed|, cap)
    ensures Snapshot(pushed, cap)[age] == pushed[|pushed| - 1 - age]
  {
    ReverseAt(Retained(pushed, cap), age);
  }

  /** A sequence that agrees with the snapshot entry by entry is the snapshot. */
  lemma SnapshotByEntries<T>(pushed: seq<T>, cap: nat, s: seq<T>)
    requires |s| == Min(|pushed|, cap)
    requires forall age :: 0 <= age < |s| ==> s[age] == pushed[|pushed| - 1 - age]
    ensures s == Snapshot(pushed, cap)
  {
    forall age | 0 <= age < |s|
      ensures s[age] == Snapshot(pushed, cap)[age]
    {
      SnapshotAt(pushed, cap, age);
    }
  }

  /** A push makes its item the newest entry; below capacity nothing is lost, at
      capacity exactly the single oldest entry is discarded. */
  lemma SnapshotPush<T>(pushed: seq<T>, x: T, cap: nat)
    requires cap > 0
    ensures Snapshot(pushed + [x], cap)
         == [x] + (if |pushed| < cap then Snapshot(pushed, cap)
                   else Snapshot(pushed, cap)[..cap - 1])
  {
    var before := Snapshot(pushed, cap);
    var after := [x] + (if |pushed| < cap then before else before[..cap - 1]);
    forall age | 0 <= age < |after|
      ensures after[age] == (pushed + [x])[|pushed + [x]| - 1 - age]
    {
      if age > 0 {
        SnapshotAt(pushed, cap, age - 1);
      }
    }
    SnapshotByEntries(pushed + [x], cap, after);
  }

  /** The snapshot is the newest-first reading of everything pushed, cut to the
      capacity. */
  lemma SnapshotIsNewestPrefix<T>(pushed: seq<T>, cap: nat)
    ensures Snapshot(pushed, cap) == Reverse(pushed)[..Min(|pushed|, cap)]
  {
    var s := Reverse(pushed)[..Min(|pushed|, cap)];
    forall age | 0 <= age < |s|
      ensures s[age] == pushed[|pushed| - 1 - age]
    {
      ReverseAt(pushed, age);
    }
    SnapshotByEntries(pushed, cap, s);
  }
}
