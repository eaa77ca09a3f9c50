/** Parts joined into one sequence. */
module Sequences {

  /** The parts one after the other. */
  function Flatten<T>(parts: seq<seq<T>>): seq<T> {
    if parts == [] then [] else Flatten(parts[..|parts| - 1]) + parts[|parts| - 1]
  }

  lemma FlattenSnoc<T>(parts: seq<seq<T>>, last: seq<T>)
    ensures Flatten(parts + [last]) == Flatten(parts) + last
  {
  }

  lemma {:induction false} FlattenCons<T>(parts: seq<seq<T>>)
    requires parts != []
    ensures Flatten(parts) == parts[0] + Flatten(parts[1..])
    decreases |parts|
  {
    var n := |parts| - 1;
    if n > 0 {
      FlattenCons(parts[..n]);
      assert parts[..n][1..] == parts[1..][..n - 1];
      assert parts[0] + Flatten(parts[..n][1..]) + parts[n] == parts[0] + (Flatten(parts[..n][1..]) + parts[n]);
    }
  }

  lemma Slices<T>(s: seq<T>, i: nat, j: nat, k: nat)
    requires i <= j <= k <= |s|
    ensures s[..k][..i] == s[..i] && s[..k][j..] == s[j..k] && s[j..][..k - j] == s[j..k]
  {
  }

  lemma {:induction false} FlattenInside<T>(parts: seq<seq<T>>, i: nat)
    requires i < |parts|
    ensures Flatten(parts) == Flatten(parts[..i]) + parts[i] + Flatten(parts[i + 1..])
    decreases |parts|
  {
    var m := |parts| - 1;
    if i == m {
      assert parts[i + 1..] == [];
    } else {
      FlattenInside(parts[..m], i);
      Slices(parts, i, i + 1, m);
    }
  }
}
