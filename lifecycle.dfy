/** The lifecycle orchestration rules: which components take part in a phase,
    in what order, and where a phase stops. */
module Lifecycle {
  import opened Model

  datatype Phase = InitPhase | StartPhase | StopPhase

  /** The instance implements the phase's interface (Initializable, Startable, Stoppable). */
  predicate Implements(c: ComponentInfo, p: Phase) {
    match p
    case InitPhase => c.instance.implementsInit
    case StartPhase => c.instance.implementsStart
    case StopPhase => c.instance.implementsStop
  }

  /** The callback for the phase is invoked on `c` and returns an error; the
      outcome of each callback is given by `failures`, which maps an instance
      to the message of the error its callback returns. */
  predicate Fails(c: ComponentInfo, p: Phase, failures: map<Instance, string>) {
    Implements(c, p) && c.instance in failures
  }

  /** The components of `cs` that implement the phase, in order. */
  function Implementers(cs: seq<ComponentInfo>, p: Phase): (r: seq<ComponentInfo>) {
    if cs == [] then []
    else Implementers(cs[..|cs| - 1], p) + (if Implements(cs[|cs| - 1], p) then [cs[|cs| - 1]] else [])
  }

  lemma {:induction false} ImplementersMember(cs: seq<ComponentInfo>, p: Phase, c: ComponentInfo)
    ensures c in Implementers(cs, p) <==> c in cs && Implements(c, p)
  {
    if cs != [] {
      var n := |cs| - 1;
      ImplementersMember(cs[..n], p, c);
      assert cs == cs[..n] + [cs[n]];
    }
  }

  lemma ImplementersStep(cs: seq<ComponentInfo>, i: nat, p: Phase)
    requires i < |cs|
    ensures Implementers(cs[..i + 1], p) ==
      Implementers(cs[..i], p) + (if Implements(cs[i], p) then [cs[i]] else [])
  {
    assert cs[..i + 1][..i] == cs[..i];
  }

  /** The position of the first component whose callback fails, or `|cs|`. */
  function FirstFailure(cs: seq<ComponentInfo>, p: Phase, failures: map<Instance, string>): (k: nat)
    ensures k <= |cs|
    ensures k < |cs| ==> Fails(cs[k], p, failures)
    ensures forall j :: 0 <= j < k ==> !Fails(cs[j], p, failures)
  {
    if cs == [] then 0
    else if Fails(cs[0], p, failures) then 0
    else 1 + FirstFailure(cs[1..], p, failures)
  }

  /** A failing component with no failure before it is the first failure. */
  lemma FirstFailureAt(cs: seq<ComponentInfo>, p: Phase, failures: map<Instance, string>, i: nat)
    requires i <= |cs| && forall j :: 0 <= j < i ==> !Fails(cs[j], p, failures)
    requires i < |cs| ==> Fails(cs[i], p, failures)
    ensures FirstFailure(cs, p, failures) == i
  {
  }

  /** The position of the last component whose callback fails, or -1. */
  function LastFailure(cs: seq<ComponentInfo>, p: Phase, failures: map<Instance, string>): (k: int)
    ensures -1 <= k < |cs|
    ensures k >= 0 ==> Fails(cs[k], p, failures)
    ensures forall j :: k < j < |cs| ==> !Fails(cs[j], p, failures)
  {
    if cs == [] then -1
    else if Fails(cs[|cs| - 1], p, failures) then |cs| - 1
    else LastFailure(cs[..|cs| - 1], p, failures)
  }

  /** No component's callback for the phase fails. */
  ghost predicate NoneFails(cs: seq<ComponentInfo>, p: Phase, failures: map<Instance, string>) {
    forall c :: c in cs ==> !Fails(c, p, failures)
  }

  /** A phase runs to the end exactly when no component's callback fails. */
  lemma FirstFailureNone(cs: seq<ComponentInfo>, p: Phase, failures: map<Instance, string>)
    ensures FirstFailure(cs, p, failures) == |cs| <==> NoneFails(cs, p, failures)
  {
    if FirstFailure(cs, p, failures) < |cs| {
      assert cs[FirstFailure(cs, p, failures)] in cs;
    }
  }

  /** Whether some callback fails does not depend on the order of the components. */
  lemma NoneFailsPermutation(a: seq<ComponentInfo>, b: seq<ComponentInfo>, p: Phase, failures: map<Instance, string>)
    requires multiset(a) == multiset(b)
    ensures NoneFails(a, p, failures) <==> NoneFails(b, p, failures)
  {
    assert forall c :: c in a <==> c in multiset(a);
    assert forall c :: c in b <==> c in multiset(b);
  }

  /** The part of `cs` an aborting phase visits: up to and including the
      first failure. */
  function Visited(cs: seq<ComponentInfo>, p: Phase, failures: map<Instance, string>): (r: seq<ComponentInfo>) {
    var k := FirstFailure(cs, p, failures);
    if k < |cs| then cs[..k + 1] else cs
  }

  /** `x` may come before `y` in a list sorted by priority. */
  predicate Ordered(x: ComponentInfo, y: ComponentInfo, ascending: bool) {
    if ascending then x.priority <= y.priority else x.priority >= y.priority
  }

  ghost predicate SortedBy(s: seq<ComponentInfo>, ascending: bool) {
    forall i, j :: 0 <= i < j < |s| ==> Ordered(s[i], s[j], ascending)
  }

  /** `c` is a component of `cs` at which a phase run in priority order may
      stop: its callback fails, and no failing component comes strictly
      before it in that order. */
  ghost predicate FirstToFail(cs: seq<ComponentInfo>, c: ComponentInfo, p: Phase, failures: map<Instance, string>,
                              ascending: bool) {
    && c in cs && Fails(c, p, failures)
    && forall d :: d in cs && Fails(d, p, failures) ==> Ordered(c, d, ascending)
  }

  /** In any ordering of `cs` sorted by priority, the first failure is a
      component at which the phase may stop, whatever the order of ties. */
  lemma FirstFailureSorted(order: seq<ComponentInfo>, cs: seq<ComponentInfo>, p: Phase,
                           failures: map<Instance, string>, ascending: bool)
    requires multiset(order) == multiset(cs) && SortedBy(order, ascending)
    requires FirstFailure(order, p, failures) < |order|
    ensures FirstToFail(cs, order[FirstFailure(order, p, failures)], p, failures, ascending)
  {
    var k := FirstFailure(order, p, failures);
    assert order[k] in multiset(order);
    forall d | d in cs && Fails(d, p, failures) ensures Ordered(order[k], d, ascending) {
      assert d in multiset(cs);
      var j :| 0 <= j < |order| && order[j] == d;
      assert k <= j;
    }
  }

  /** Exchanges two adjacent entries. */
  method Swap(a: array<ComponentInfo>, i: nat, j: nat)
    requires i < j < a.Length
    modifies a
    ensures a[..] == old(a[..])[i := old(a[j])][j := old(a[i])]
    ensures multiset(a[..]) == old(multiset(a[..]))
  {
    a[i], a[j] := a[j], a[i];
  }

  /** Sorts by priority in place. This stands for Go's `sort.Slice`, which is
      not stable: only sortedness and the permutation are promised. */
  method SortByPriority(a: array<ComponentInfo>, ascending: bool)
    modifies a
    ensures SortedBy(a[..], ascending)
    ensures multiset(a[..]) == old(multiset(a[..]))
  {
    if a.Length == 0 {
      return;
    }
    var i := 1;
    while i < a.Length
      invariant 1 <= i <= a.Length
      invariant SortedBy(a[..i], ascending)
      invariant multiset(a[..]) == old(multiset(a[..]))
    {
      Insert(a, i, ascending);
      i := i + 1;
    }
    assert a[..i] == a[..];
  }

  /** Moves `a[i]` down into the sorted prefix `a[..i]`, so that `a[..i + 1]`
      is sorted. */
  method Insert(a: array<ComponentInfo>, i: nat, ascending: bool)
    requires i < a.Length && SortedBy(a[..i], ascending)
    modifies a
    ensures SortedBy(a[..i + 1], ascending)
    ensures multiset(a[..]) == old(multiset(a[..]))
  {
    var j := i;
    while j > 0 && !Ordered(a[j - 1], a[j], ascending)
      invariant 0 <= j <= i
      invariant forall p, q :: 0 <= p < q <= i && p != j && q != j ==> Ordered(a[p], a[q], ascending)
      invariant forall q :: j < q <= i ==> Ordered(a[j], a[q], ascending)
      invariant multiset(a[..]) == old(multiset(a[..]))
    {
      Swap(a, j - 1, j);
      j := j - 1;
    }
  }
}
