/**
 * Joining the outcomes of reading the rows of a table one after another:
 * the output rows of each row appended in order, where the first row that
 * fails makes the whole read fail and nothing of the partial output is kept.
 */
module Outcomes {
  import opened Wrappers
  import opened Tables

  /** What reading one row gives: the output rows it yields, or why the read fails. */
  type Outcome = Result<seq<OutRow>, ReadError>

  /** How many output rows an outcome contributes. */
  function Width(o: Outcome): nat {
    if o.Success? then |o.value| else 0
  }

  /** The position at which the output rows of row n begin. */
  function Start(os: seq<Outcome>, n: nat): nat
    requires n <= |os|
  {
    if n == 0 then 0 else Start(os, n - 1) + Width(os[n - 1])
  }

  /**
   * The outcome of reading rows 0 .. n-1 in order; a success is as long as
   * the rows it joins.
   */
  function Joined(os: seq<Outcome>, n: nat): (r: Outcome)
    requires n <= |os|
    ensures r.Success? ==> |r.value| == Start(os, n)
  {
    if n == 0 then Success([])
    else match Joined(os, n - 1)
      case Failure(e) => Failure(e)
      case Success(out) =>
        match os[n - 1]
        case Failure(e) => Failure(e)
        case Success(rows) => Success(out + rows)
  }

  lemma {:induction false} StartMonotone(os: seq<Outcome>, m: nat, n: nat)
    requires m <= n <= |os|
    ensures Start(os, m) <= Start(os, n)
  {
    if m < n {
      StartMonotone(os, m, n - 1);
    }
  }

  /** Once a row fails, reading more rows fails with the same error. */
  lemma {:induction false} FailurePersists(os: seq<Outcome>, m: nat, n: nat)
    requires m <= n <= |os|
    requires Joined(os, m).Failure?
    ensures Joined(os, n) == Joined(os, m)
  {
    if m < n {
      FailurePersists(os, m, n - 1);
    }
  }

  /** Reading n rows succeeds exactly when each of them succeeds. */
  lemma {:induction false} JoinedSuccess(os: seq<Outcome>, n: nat)
    requires n <= |os|
    ensures Joined(os, n).Success? <==> forall j :: 0 <= j < n ==> os[j].Success?
  {
    if n > 0 {
      JoinedSuccess(os, n - 1);
    }
  }

  /** Reading one more row: its failure is the failure of the whole read, its rows are appended. */
  lemma JoinedStep(os: seq<Outcome>, i: nat, out: seq<OutRow>)
    requires i < |os| && Joined(os, i) == Success(out)
    ensures os[i].Failure? ==> Joined(os, |os|) == Failure(os[i].error)
    ensures os[i].Success? ==> Joined(os, i + 1) == Success(out + os[i].value)
  {
    if os[i].Failure? {
      FailurePersists(os, i + 1, |os|);
    }
  }

  /** The read fails with the error of the first failing row. */
  lemma {:induction false} FirstFailureWins(os: seq<Outcome>, n: nat, i: nat)
    requires i < n <= |os|
    requires forall j :: 0 <= j < i ==> os[j].Success?
    requires os[i].Failure?
    ensures Joined(os, n) == Failure(os[i].error)
  {
    JoinedSuccess(os, i);
    assert Joined(os, i + 1) == Failure(os[i].error);
    FailurePersists(os, i + 1, n);
  }

  /** In a successful read of n rows, row j yields exactly the output at Start(j) .. Start(j+1). */
  lemma {:induction false} JoinedBlock(os: seq<Outcome>, n: nat, j: nat)
    requires j < n <= |os|
    requires Joined(os, n).Success?
    ensures os[j].Success?
    ensures Start(os, j) <= Start(os, j + 1) <= Start(os, n) == |Joined(os, n).value|
    ensures Joined(os, n).value[Start(os, j)..Start(os, j + 1)] == os[j].value
  {
    var out := Joined(os, n - 1).value;
    var rows := os[n - 1].value;
    assert Joined(os, n).value == out + rows;
    if j < n - 1 {
      JoinedBlock(os, n - 1, j);
      assert (out + rows)[Start(os, j)..Start(os, j + 1)] == out[Start(os, j)..Start(os, j + 1)];
    } else {
      assert (out + rows)[Start(os, j)..Start(os, j + 1)] == rows;
    }
  }

  lemma {:induction false} SourceExists(os: seq<Outcome>, k: nat, n: nat)
    requires n <= |os| && k < Start(os, n)
    ensures exists i :: 0 <= i < n && Start(os, i) <= k < Start(os, i + 1)
  {
    if k >= Start(os, n - 1) {
      assert Start(os, n - 1) <= k < Start(os, n);
    } else {
      SourceExists(os, k, n - 1);
    }
  }

  /** The row whose output holds position k. */
  ghost function Source(os: seq<Outcome>, k: nat, n: nat): (i: nat)
    requires n <= |os| && k < Start(os, n)
    ensures i < n && Start(os, i) <= k < Start(os, i + 1)
  {
    SourceExists(os, k, n);
    var i :| 0 <= i < n && Start(os, i) <= k < Start(os, i + 1); i
  }

  /** In a successful read, the output of an earlier row comes before that of a later one. */
  lemma OrderFollows(os: seq<Outcome>, n: nat, i: nat, j: nat, k1: nat, k2: nat)
    requires i < j < n <= |os| && Joined(os, n).Success?
    requires Start(os, i) <= k1 < Start(os, i + 1) && Start(os, j) <= k2 < Start(os, j + 1)
    ensures k1 < k2 < |Joined(os, n).value|
  {
    StartMonotone(os, i + 1, j);
    JoinedBlock(os, n, j);
  }

  /** Position k of a successful read is position k - Start(i) of the output of some row i. */
  lemma SourcePosition(os: seq<Outcome>, n: nat, k: nat) returns (i: nat)
    requires n <= |os| && Joined(os, n).Success? && k < |Joined(os, n).value|
    ensures i < n && Start(os, i) <= k < Start(os, i + 1) && os[i].Success?
    ensures Joined(os, n).value[k] == os[i].value[k - Start(os, i)]
  {
    i := Source(os, k, n);
    JoinedBlock(os, n, i);
    assert Joined(os, n).value[k] == Joined(os, n).value[Start(os, i)..Start(os, i + 1)][k - Start(os, i)];
  }
}
