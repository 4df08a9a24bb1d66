// Sublists: what it means that a list holds some elements of another one, in order.

module Selection {

  /** `out` holds the elements of `all` at the ascending positions `at`. */
  ghost predicate Picked<T>(all: seq<T>, at: seq<nat>, out: seq<T>) {
    && |at| == |out|
    && (forall i :: 0 <= i < |at| ==> at[i] < |all| && all[at[i]] == out[i])
    && (forall i, j :: 0 <= i < j < |at| ==> at[i] < at[j])
  }

  lemma PickedNone<T>()
    ensures Picked<T>([], [], [])
  {
  }

  lemma PickedSnoc<T>(all: seq<T>, at: seq<nat>, out: seq<T>, x: T)
    requires Picked(all, at, out)
    ensures Picked(all + [x], at, out) && Picked(all + [x], at + [|all|], out + [x])
    ensures forall j :: 0 <= j <= |all| ==> (j in at + [|all|] <==> j in at || j == |all|)
    ensures |all| !in at
  {
    var all', at', out' := all + [x], at + [|all|], out + [x];
    assert forall i :: 0 <= i < |at| ==> at'[i] == at[i] && out'[i] == out[i] && all'[at[i]] == all[at[i]];
    assert forall j :: j in at' <==> j in at || j == |all|;
  }

  /** The first `n` picks are the picks up to position `at[n - 1]`. */
  lemma PickedPrefix<T>(all: seq<T>, at: seq<nat>, out: seq<T>, n: nat)
    requires Picked(all, at, out) && 0 < n <= |at|
    ensures Picked(all, at[..n], out[..n])
    ensures forall j :: j in at[..n] <==> j in at && j <= at[n - 1]
  {
    forall j ensures j in at[..n] <==> j in at && j <= at[n - 1] {
      if j in at {
        var i :| 0 <= i < |at| && at[i] == j;
        assert i < n ==> at[..n][i] == j;
      }
    }
  }

  lemma {:induction false} SamePositions(at: seq<nat>, at': seq<nat>)
    requires forall i, j :: 0 <= i < j < |at| ==> at[i] < at[j]
    requires forall i, j :: 0 <= i < j < |at'| ==> at'[i] < at'[j]
    requires forall j :: j in at <==> j in at'
    ensures at == at'
  {
    assert at != [] ==> at[0] in at;
    assert at' != [] ==> at'[0] in at';
    if at != [] && at' != [] {
      var m, n := |at| - 1, |at'| - 1;
      assert at[m] in at' && at'[n] in at;
      assert at[m] == at'[n];
      forall j ensures j in at[..m] <==> j in at'[..n] {
        assert j in at[..m] ==> j in at && j < at[m];
        assert j in at'[..n] ==> j in at' && j < at'[n];
        assert j in at && j != at[m] ==> j in at[..m];
        assert j in at' && j != at'[n] ==> j in at'[..n];
      }
      SamePositions(at[..m], at'[..n]);
      assert at == at[..m] + [at[m]] && at' == at'[..n] + [at'[n]];
    }
  }

  /** Which positions are picked determines the list. */
  lemma {:induction false} PickIsUnique<T>(all: seq<T>, at: seq<nat>, out: seq<T>, at': seq<nat>, out': seq<T>)
    requires Picked(all, at, out) && Picked(all, at', out')
    requires forall j :: 0 <= j < |all| ==> (j in at <==> j in at')
    ensures out == out'
  {
    forall j ensures j in at <==> j in at' {
      assert j in at ==> j < |all|;
      assert j in at' ==> j < |all|;
    }
    SamePositions(at, at');
  }
}
