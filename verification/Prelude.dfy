/** Datatypes and sequence facts shared by the other modules. */
module Prelude {
  datatype Option<+T> = None | Some(value: T)

  function Flatten<T>(parts: seq<seq<T>>): seq<T> {
    if parts == [] then [] else Flatten(parts[..|parts| - 1]) + parts[|parts| - 1]
  }

  /** Taking the last element off a concatenation. */
  lemma {:induction false} AppendInit<T>(xs: seq<T>, ys: seq<T>)
    requires ys != []
    ensures (xs + ys)[..|xs + ys| - 1] == xs + ys[..|ys| - 1]
    ensures (xs + ys)[|xs + ys| - 1] == ys[|ys| - 1]
  {
  }

  lemma {:induction false} Reassociate<T>(xs: seq<T>, ys: seq<T>, zs: seq<T>)
    ensures (xs + ys) + zs == xs + (ys + zs)
  {
  }

  lemma {:induction false} SliceJoin<T>(xs: seq<T>, n: nat, m: nat)
    requires n + m <= |xs|
    ensures xs[..n] + xs[n..][..m] == xs[..n + m]
  {
  }

  /** Changing one element and taking the last one off. */
  lemma {:induction false} UpdateInit<T>(xs: seq<T>, at: nat, x: T)
    requires at < |xs|
    ensures xs[at := x][..|xs| - 1] == if at < |xs| - 1 then xs[..|xs| - 1][at := x] else xs[..|xs| - 1]
    ensures xs[at := x][|xs| - 1] == if at < |xs| - 1 then xs[|xs| - 1] else x
  {
  }

  lemma {:induction false} FlattenAppend<T>(xs: seq<seq<T>>, ys: seq<seq<T>>)
    ensures Flatten(xs + ys) == Flatten(xs) + Flatten(ys)
  {
    if ys == [] {
      assert xs + ys == xs;
    } else {
      var init, last := ys[..|ys| - 1], ys[|ys| - 1];
      FlattenAppend(xs, init);
      AppendInit(xs, ys);
      Reassociate(Flatten(xs), Flatten(init), last);
    }
  }

  lemma {:induction false} FlattenCons<T>(x: seq<T>, rest: seq<seq<T>>)
    ensures Flatten([x] + rest) == x + Flatten(rest)
  {
    FlattenAppend([x], rest);
    assert Flatten([x]) == x by {
      assert [x][..0] == [];
    }
  }

  lemma {:induction false} FlattenPush<T>(parts: seq<seq<T>>, x: seq<T>)
    ensures Flatten(parts + [x]) == Flatten(parts) + x
  {
    assert (parts + [x])[..|parts|] == parts;
  }

  /** `picked` lists positions of `whole` from left to right. */
  ghost predicate Increasing(picked: seq<nat>, bound: nat) {
    && (forall i :: 0 <= i < |picked| ==> picked[i] < bound)
    && (forall i, j :: 0 <= i < j < |picked| ==> picked[i] < picked[j])
  }

  /** `out` holds the elements of `all` at the positions `picked`, in order. */
  ghost predicate Picks<T>(all: seq<T>, out: seq<T>, picked: seq<nat>) {
    && Increasing(picked, |all|)
    && |out| == |picked|
    && forall i :: 0 <= i < |picked| ==> out[i] == all[picked[i]]
  }

  lemma {:induction false} PicksSkip<T>(all: seq<T>, out: seq<T>, picked: seq<nat>, x: T)
    requires Picks(all, out, picked)
    ensures Picks(all + [x], out, picked)
  {
  }

  lemma {:induction false} PicksTake<T>(all: seq<T>, out: seq<T>, picked: seq<nat>, x: T)
    requires Picks(all, out, picked)
    ensures Picks(all + [x], out + [x], picked + [|all|])
  {
  }
}
