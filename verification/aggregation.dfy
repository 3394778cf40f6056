/** The error aggregation shared by the object and array validators: every
    child is validated, and each failing child's errors are appended, in
    order, behind that child's path prefix (`"key: "` or `"[i]: "`). */
module Aggregation {
  import opened ValidationResults

  /** `errors.map(err => prefix + err)`. */
  function Prefixed(prefix: string, errors: seq<string>): seq<string> {
    seq(|errors|, i requires 0 <= i < |errors| => prefix + errors[i])
  }

  lemma PrefixedOne(prefix: string, e: string)
    ensures Prefixed(prefix, [e]) == [prefix + e]
  {
    assert Prefixed(prefix, [e])[0] == prefix + e;
  }

  /** What one child adds to the aggregate: nothing on success, otherwise its
      errors (`result.errors || []`) behind its prefix. */
  function Contribution(prefix: string, r: ValidationResult): seq<string> {
    if r.success then [] else Prefixed(prefix, ErrorsOf(r))
  }

  /** The lists the loop pushes, child by child. */
  function Contributions(prefixes: seq<string>, rs: seq<ValidationResult>): (cs: seq<seq<string>>)
    requires |prefixes| == |rs|
    ensures |cs| == |rs|
  {
    seq(|rs|, i requires 0 <= i < |rs| => Contribution(prefixes[i], rs[i]))
  }

  /** The lists of `xss` one after the other. */
  function Flatten(xss: seq<seq<string>>): seq<string> {
    if |xss| == 0 then [] else Flatten(xss[..|xss| - 1]) + xss[|xss| - 1]
  }

  /** The error list the validation loop builds for child results `rs`. */
  function Collect(prefixes: seq<string>, rs: seq<ValidationResult>): seq<string>
    requires |prefixes| == |rs|
  {
    Flatten(Contributions(prefixes, rs))
  }

  predicate AllWellFormed(rs: seq<ValidationResult>) {
    forall i :: 0 <= i < |rs| ==> WellFormed(rs[i])
  }

  predicate AllSucceed(rs: seq<ValidationResult>) {
    forall i :: 0 <= i < |rs| ==> rs[i].success
  }

  /** How many children failed. */
  function FailureCount(rs: seq<ValidationResult>): nat {
    if |rs| == 0 then 0
    else FailureCount(rs[..|rs| - 1]) + (if rs[|rs| - 1].success then 0 else 1)
  }

  /** The total number of errors the failing children report. */
  function ErrorTotal(rs: seq<ValidationResult>): nat {
    if |rs| == 0 then 0
    else ErrorTotal(rs[..|rs| - 1]) + (if rs[|rs| - 1].success then 0 else |ErrorsOf(rs[|rs| - 1])|)
  }

  lemma {:induction false} FlattenEmpty(xss: seq<seq<string>>)
    ensures Flatten(xss) == [] <==> forall i :: 0 <= i < |xss| ==> xss[i] == []
  {
    if |xss| > 0 {
      FlattenEmpty(xss[..|xss| - 1]);
    }
  }

  lemma {:induction false} FlattenAppend(a: seq<seq<string>>, b: seq<seq<string>>)
    ensures Flatten(a + b) == Flatten(a) + Flatten(b)
    decreases |b|
  {
    if |b| == 0 {
      assert a + b == a;
    } else {
      var n := |b| - 1;
      FlattenAppend(a, b[..n]);
      assert (a + b)[..|a| + n] == a + b[..n];
    }
  }

  lemma {:induction false} FlattenMembership(xss: seq<seq<string>>, e: string)
    ensures e in Flatten(xss) <==> exists i, j :: 0 <= i < |xss| && 0 <= j < |xss[i]| && xss[i][j] == e
  {
    if |xss| > 0 {
      var n := |xss| - 1;
      FlattenMembership(xss[..n], e);
      if e in Flatten(xss) {
        if e in xss[n] {
          var j :| 0 <= j < |xss[n]| && xss[n][j] == e;
        } else {
          var i, j :| 0 <= i < n && 0 <= j < |xss[..n][i]| && xss[..n][i][j] == e;
          assert xss[i] == xss[..n][i];
        }
      }
      if exists i, j :: 0 <= i < |xss| && 0 <= j < |xss[i]| && xss[i][j] == e {
        var i, j :| 0 <= i < |xss| && 0 <= j < |xss[i]| && xss[i][j] == e;
        if i < n {
          assert xss[..n][i] == xss[i];
        }
      }
    }
  }

  /** The aggregate is empty exactly when every child succeeded: a failing
      child always contributes at least one error. */
  lemma CollectEmptyIffAllSucceed(prefixes: seq<string>, rs: seq<ValidationResult>)
    requires |prefixes| == |rs|
    requires AllWellFormed(rs)
    ensures Collect(prefixes, rs) == [] <==> AllSucceed(rs)
  {
    var cs := Contributions(prefixes, rs);
    FlattenEmpty(cs);
    assert forall i :: 0 <= i < |rs| ==> (cs[i] == [] <==> rs[i].success);
  }

  /** No error is lost or invented: the aggregate holds exactly the failing
      children's errors, so there are at least as many errors as failing children. */
  lemma {:induction false} CollectCount(prefixes: seq<string>, rs: seq<ValidationResult>)
    requires |prefixes| == |rs|
    requires AllWellFormed(rs)
    ensures |Collect(prefixes, rs)| == ErrorTotal(rs)
    ensures ErrorTotal(rs) >= FailureCount(rs)
  {
    if |rs| > 0 {
      var n := |rs| - 1;
      CollectCount(prefixes[..n], rs[..n]);
      var cs := Contributions(prefixes, rs);
      assert cs[..n] == Contributions(prefixes[..n], rs[..n]);
    }
  }

  /** Order is preserved: the aggregate over two runs of children is the
      aggregate over the first run followed by the aggregate over the second. */
  lemma CollectAppend(p1: seq<string>, r1: seq<ValidationResult>, p2: seq<string>, r2: seq<ValidationResult>)
    requires |p1| == |r1| && |p2| == |r2|
    ensures Collect(p1 + p2, r1 + r2) == Collect(p1, r1) + Collect(p2, r2)
  {
    assert Contributions(p1 + p2, r1 + r2) == Contributions(p1, r1) + Contributions(p2, r2);
    FlattenAppend(Contributions(p1, r1), Contributions(p2, r2));
  }

  /** The aggregate of a single child: its errors behind its prefix, or nothing. */
  lemma CollectOne(prefix: string, r: ValidationResult)
    ensures Collect([prefix], [r]) == Contribution(prefix, r)
  {
    var cs := Contributions([prefix], [r]);
    assert cs[..0] == [] && cs[0] == Contribution(prefix, r);
    assert Flatten(cs) == Flatten(cs[..0]) + cs[0];
  }

  /** An error is in the aggregate exactly when it is some failing child's
      error behind that child's prefix. */
  lemma CollectMembership(prefixes: seq<string>, rs: seq<ValidationResult>, e: string)
    requires |prefixes| == |rs|
    ensures e in Collect(prefixes, rs) <==>
      exists i, j :: 0 <= i < |rs| && !rs[i].success && 0 <= j < |ErrorsOf(rs[i])|
                     && e == prefixes[i] + ErrorsOf(rs[i])[j]
  {
    var cs := Contributions(prefixes, rs);
    FlattenMembership(cs, e);
    if e in Collect(prefixes, rs) {
      var i, j :| 0 <= i < |cs| && 0 <= j < |cs[i]| && cs[i][j] == e;
      assert !rs[i].success && e == prefixes[i] + ErrorsOf(rs[i])[j];
    }
    if exists i, j :: 0 <= i < |rs| && !rs[i].success && 0 <= j < |ErrorsOf(rs[i])|
                      && e == prefixes[i] + ErrorsOf(rs[i])[j] {
      var i, j :| 0 <= i < |rs| && !rs[i].success && 0 <= j < |ErrorsOf(rs[i])|
                  && e == prefixes[i] + ErrorsOf(rs[i])[j];
      assert cs[i][j] == e;
    }
  }
}
