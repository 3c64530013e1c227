/** The container of the `boot` package and its fluent registration builder:
    the descriptor store, the batch commit of pending builders, the lookups,
    the type-index rebuild, field injection and the lifecycle phases. */
module Boot {
  import opened Model
  import opened Resolution
  import opened Directives
  import opened Lifecycle

  /** What injection does with one field. */
  datatype Action = Skip | Assign(dependency: Instance) | Fail(error: Error)

  /** The position of the first descriptor whose name is already taken, by
      `existing` or by an earlier descriptor, or `|infos|`. */
  function FirstDuplicate(existing: set<string>, infos: seq<ComponentInfo>): (k: nat)
    ensures k <= |infos|
    ensures k < |infos| ==> infos[k].name in existing + NameSet(infos[..k])
  {
    if infos == [] then 0
    else
      var n := |infos| - 1;
      var k := FirstDuplicate(existing, infos[..n]);
      if k < n then
        assert infos[..n][..k] == infos[..k];
        k
      else if infos[n].name in existing + NameSet(infos[..n]) then n
      else n + 1
  }

  /** No descriptor before the first duplicate has a taken name. */
  lemma {:induction false} FirstDuplicatePrefix(existing: set<string>, infos: seq<ComponentInfo>)
    ensures forall j :: 0 <= j < FirstDuplicate(existing, infos) ==> infos[j].name !in existing + NameSet(infos[..j])
  {
    if infos != [] {
      var n := |infos| - 1;
      FirstDuplicatePrefix(existing, infos[..n]);
      forall j | 0 <= j < FirstDuplicate(existing, infos) && j < n
        ensures infos[j].name !in existing + NameSet(infos[..j])
      {
        assert infos[..n][..j] == infos[..j];
        assert infos[..n][j] == infos[j];
      }
    }
  }

  /** One step of the registration loop: when no descriptor before `i` was a
      duplicate, the name of `infos[i]` says whether `i` is the first. */
  lemma DuplicateStep(existing: set<string>, infos: seq<ComponentInfo>, i: nat)
    requires i < |infos| && i <= FirstDuplicate(existing, infos)
    ensures infos[i].name in existing + NameSet(infos[..i]) ==> FirstDuplicate(existing, infos) == i
    ensures infos[i].name !in existing + NameSet(infos[..i]) ==> i < FirstDuplicate(existing, infos)
  {
    FirstDuplicatePrefix(existing, infos);
  }

  lemma PushPrefix(a: seq<ComponentInfo>, b: seq<ComponentInfo>, i: nat)
    requires i < |b|
    ensures a + b[..i] + [b[i]] == a + b[..i + 1]
    ensures b[..i + 1] == b[..i] + [b[i]]
  {
    assert b[..i + 1] == b[..i] + [b[i]];
  }

  /** The phase of `Run` that reported `err`: 0 registration, 1 type
      validation, 2 injection, 3 initialization, 4 startup; 5 when the run
      succeeded, 6 for an error that comes from none of them. */
  function RunStep(err: Option<Error>): (n: nat)
    ensures n <= 6
    ensures n == 5 <==> err.None?
  {
    if err.None? then 5
    else if err.value.RegistrationFailed? then 0
    else if err.value.TypeValidationFailed? then 1
    else if err.value.DependencyInjectionFailed? then 2
    else if err.value.InitializationFailed? then 3
    else if err.value.StartupFailed? then 4
    else 6
  }

  /** Where `Run` stops after a successful injection: 3 when some Init
      callback fails, 4 when the container was already started or some
      Start callback fails, 5 otherwise. */
  ghost function PhaseOutcome(cs: seq<ComponentInfo>, wasStarted: bool,
                              initFailures: map<Instance, string>, startFailures: map<Instance, string>): (n: nat)
    ensures 3 <= n <= 5
  {
    if !NoneFails(cs, InitPhase, initFailures) then 3
    else if wasStarted || !NoneFails(cs, StartPhase, startFailures) then 4
    else 5
  }

  /** Where `Run` stops once the type index is `ix`: 2 when some component
      fails to inject, else as the later phases decide. */
  ghost function InjectOutcome(cs: seq<ComponentInfo>, ix: Index, wasStarted: bool, assignable: (GoType, GoType) -> bool,
                               initFailures: map<Instance, string>, startFailures: map<Instance, string>): (n: nat)
    ensures 2 <= n <= 5
  {
    if FirstFailing(ix, cs, assignable) < |cs| then 2
    else PhaseOutcome(cs, wasStarted, initFailures, startFailures)
  }

  /** The cause an Init or Start failure of `Run` wraps: the error of a
      highest-priority failing callback, or `AlreadyStarted`. */
  ghost predicate PhaseCause(err: Option<Error>, cs: seq<ComponentInfo>, wasStarted: bool,
                             initFailures: map<Instance, string>, startFailures: map<Instance, string>) {
    && (RunStep(err) == 3 ==>
          exists i :: 0 <= i < |cs| && FirstToFail(cs, cs[i], InitPhase, initFailures, false)
                      && err.value.cause == InitFailed(cs[i].name, initFailures[cs[i].instance]))
    && (RunStep(err) == 4 ==>
          if wasStarted then err.value.cause == AlreadyStarted
          else exists i :: 0 <= i < |cs| && FirstToFail(cs, cs[i], StartPhase, startFailures, false)
                           && err.value.cause == StartFailed(cs[i].name, startFailures[cs[i].instance]))
  }

  /** The cause an injection failure of `Run` wraps: the error of the first
      component, in registration order, whose injection fails. */
  ghost predicate InjectCause(err: Option<Error>, cs: seq<ComponentInfo>, ix: Index, assignable: (GoType, GoType) -> bool) {
    RunStep(err) == 2 ==>
      var f := FirstFailing(ix, cs, assignable);
      f < |cs| && err.value.cause == InjectFailed(cs[f].name, InjectionError(ix, cs[f].instance, assignable).value)
  }

  /** How the phases after type validation end: the phase that reports
      the error and the cause it wraps. */
  ghost predicate LaterPhases(err: Option<Error>, cs: seq<ComponentInfo>, ix: Index, wasStarted: bool,
                              assignable: (GoType, GoType) -> bool,
                              initFailures: map<Instance, string>, startFailures: map<Instance, string>) {
    && RunStep(err) == InjectOutcome(cs, ix, wasStarted, assignable, initFailures, startFailures)
    && InjectCause(err, cs, ix, assignable)
    && PhaseCause(err, cs, wasStarted, initFailures, startFailures)
  }

  /** How the phases after registration end: validation fails exactly when
      resolution does, with some exported type's error; otherwise the index
      is the resolved one and the later phases decide. */
  ghost predicate AfterRegistration(err: Option<Error>, cs: seq<ComponentInfo>, ix: Index, wasStarted: bool,
                                    assignable: (GoType, GoType) -> bool,
                                    initFailures: map<Instance, string>, startFailures: map<Instance, string>) {
    && 1 <= RunStep(err)
    && (RunStep(err) == 1 <==> !Resolvable(cs))
    && (RunStep(err) == 1 ==> exists t :: t in Exported(cs) && ResolveType(cs, t) == Err(err.value.cause))
    && (RunStep(err) > 1 ==>
          ix.byType == ResolvedIndex(cs) && LaterPhases(err, cs, ix, wasStarted, assignable, initFailures, startFailures))
  }

  /** The fields of `x`, previously `vals`, once injection over `cs` has run:
      injected when injection reached one of its components, kept otherwise. */
  ghost function FieldsAfterInjection(ix: Index, cs: seq<ComponentInfo>, assignable: (GoType, GoType) -> bool,
                                      x: Instance, vals: seq<Instance?>): (r: seq<Instance?>) {
    if x in InstancesOf(Reached(ix, cs, assignable)) then InjectedFields(ix, x, vals, assignable) else vals
  }

  /** A map entry read the Go way: a missing key yields the empty slice. */
  function GroupOf(groups: map<GoType, seq<ComponentInfo>>, t: GoType): (g: seq<ComponentInfo>)
    ensures t in groups ==> g == groups[t]
    ensures t !in groups ==> g == []
  {
    if t in groups then groups[t] else []
  }

  /** Go's default component name: the type's name with one pointer level removed. */
  function DefaultName(t: GoType): (n: string)
    ensures TypeString(t) == if t.Pointer? then "*" + n else n
  {
    if t.Pointer? then TypeString(t.elem) else TypeString(t)
  }

  /** The type `Export` records: a pointer stands for the type it points to. */
  function ExportedType(t: GoType): (r: GoType) {
    if t.Pointer? then t.elem else t
  }

  /** The descriptors a list of builders registers. */
  function BuilderInfos(bs: seq<ObjectBuilder>): (r: seq<ComponentInfo>)
    reads bs
    ensures |r| == |bs| && forall i :: 0 <= i < |bs| ==> r[i] == bs[i].Info()
  {
    seq(|bs|, i requires 0 <= i < |bs| reads bs => bs[i].Info())
  }

  lemma NameSetAppend(a: seq<ComponentInfo>, b: seq<ComponentInfo>)
    ensures NameSet(a + b) == NameSet(a) + NameSet(b)
  {
    forall n | n in NameSet(a + b) ensures n in NameSet(a) + NameSet(b) {
      var i :| 0 <= i < |a + b| && (a + b)[i].name == n;
      if i >= |a| { assert b[i - |a|].name == n; }
    }
    forall n | n in NameSet(a) + NameSet(b) ensures n in NameSet(a + b) {
      if n in NameSet(b) {
        var i :| 0 <= i < |b| && b[i].name == n;
        assert (a + b)[|a| + i].name == n;
      } else {
        var i :| 0 <= i < |a| && a[i].name == n;
        assert (a + b)[i].name == n;
      }
    }
  }

  lemma NameSetPush(a: seq<ComponentInfo>, c: ComponentInfo)
    ensures NameSet(a + [c]) == NameSet(a) + {c.name}
  {
    NameSetAppend(a, [c]);
    assert NameSet([c]) == {c.name} by {
      assert [c][0].name == c.name;
    }
  }

  lemma InstancesOfPush(cs: seq<ComponentInfo>, i: nat)
    requires i < |cs|
    ensures InstancesOf(cs[..i + 1]) == InstancesOf(cs[..i]) + {cs[i].instance}
  {
    var p, q := cs[..i], cs[..i + 1];
    assert q == p + [cs[i]];
    forall x | x in InstancesOf(q) ensures x in InstancesOf(p) + {cs[i].instance} {
      var j :| 0 <= j < |q| && q[j].instance == x;
      if j < i { assert p[j].instance == x; }
    }
    forall x | x in InstancesOf(p) + {cs[i].instance} ensures x in InstancesOf(q) {
      if x in InstancesOf(p) {
        var j :| 0 <= j < |p| && p[j].instance == x;
        assert q[j].instance == x;
      } else {
        assert q[i].instance == x;
      }
    }
  }

  lemma InstancesOfAppend(a: seq<ComponentInfo>, b: seq<ComponentInfo>)
    ensures InstancesOf(a + b) == InstancesOf(a) + InstancesOf(b)
  {
    forall x | x in InstancesOf(a + b) ensures x in InstancesOf(a) + InstancesOf(b) {
      var i :| 0 <= i < |a + b| && (a + b)[i].instance == x;
      if i >= |a| { assert b[i - |a|].instance == x; }
    }
    forall x | x in InstancesOf(a) + InstancesOf(b) ensures x in InstancesOf(a + b) {
      if x in InstancesOf(b) {
        var i :| 0 <= i < |b| && b[i].instance == x;
        assert (a + b)[|a| + i].instance == x;
      } else {
        var i :| 0 <= i < |a| && a[i].instance == x;
        assert (a + b)[i].instance == x;
      }
    }
  }

  /** The instances a batch of builders registers. */
  lemma BuilderInstances(bs: seq<ObjectBuilder>)
    ensures InstancesOf(BuilderInfos(bs)) == set b | b in bs :: b.instance
  {
    var infos := BuilderInfos(bs);
    forall x | x in InstancesOf(infos) ensures x in set b | b in bs :: b.instance {
      var i :| 0 <= i < |infos| && infos[i].instance == x;
      assert bs[i] in bs && bs[i].instance == x;
    }
    forall x | x in (set b | b in bs :: b.instance) ensures x in InstancesOf(infos) {
      var b :| b in bs && b.instance == x;
      var i :| 0 <= i < |bs| && bs[i] == b;
      assert infos[i].instance == x;
    }
  }

  /** The name and type indexes of a container, as the lookups see them. */
  datatype Index = Index(byName: map<string, ComponentInfo>, byType: map<GoType, ComponentInfo>)

  /** The lookup by name, without the lock. */
  function LookupName(ix: Index, name: string): (r: Result<Instance>) {
    if name in ix.byName then Ok(ix.byName[name].instance) else Err(NameNotFound(name))
  }

  /** The lookup by type, without the lock. */
  function LookupType(ix: Index, t: GoType): (r: Result<Instance>) {
    if t in ix.byType then Ok(ix.byType[t].instance) else Err(TypeNotFound(t))
  }

  /** Resolves one field of type `fieldType` tagged `qualifier`; `Ok(None)`
      means "no value and no error". */
  function Resolve(ix: Index, fieldType: GoType, qualifier: string, assignable: (GoType, GoType) -> bool)
    : (r: Result<Option<Instance>>)
  {
    match ParseQualifier(qualifier)
    case OptionalByType =>
      (match LookupType(ix, fieldType)
       case Ok(d) => Ok(Some(d))
       case Err(_) => Ok(None))
    case ByType =>
      (match LookupType(ix, fieldType)
       case Ok(d) => Ok(Some(d))
       case Err(e) => Err(e))
    case ByName(n, optional) =>
      (match LookupName(ix, n)
       case Err(e) => if optional then Ok(None) else Err(e)
       case Ok(d) =>
         if !assignable(d.typ, fieldType) then
           if optional then Ok(None) else Err(NotAssignable(n, d.typ, fieldType))
         else Ok(Some(d)))
  }

  /** The resolution rules: the optional forms never fail, the by-type forms
      fail exactly when the type is not indexed, and a dependency found by name
      is assignable to the field. */
  lemma ResolveRules(ix: Index, fieldType: GoType, qualifier: string, assignable: (GoType, GoType) -> bool)
    ensures var d, r := ParseQualifier(qualifier), Resolve(ix, fieldType, qualifier, assignable);
      && (d.OptionalByType? ==> r.Ok?)
      && (d.ByName? && d.optional ==> r.Ok?)
      && (d.ByType? ==> (r.Err? <==> fieldType !in ix.byType))
      && (d.ByType? && r.Err? ==> r.error == TypeNotFound(fieldType))
      && (d.ByType? && r.Ok? ==> r.value.Some?)
      && (r.Ok? && r.value.Some? && d.ByName? ==>
            d.name in ix.byName && r.value.value == ix.byName[d.name].instance
            && assignable(r.value.value.typ, fieldType))
      && (r.Ok? && r.value.Some? && !d.ByName? ==>
            fieldType in ix.byType && r.value.value == ix.byType[fieldType].instance)
  {
  }

  /** A required by-name lookup fails with the lookup's error when the name is
      missing, and with `NotAssignable` when the type does not fit. */
  lemma ResolveByNameFailures(ix: Index, fieldType: GoType, qualifier: string, assignable: (GoType, GoType) -> bool)
    requires ParseQualifier(qualifier).ByName? && !ParseQualifier(qualifier).optional
    ensures var n, r := ParseQualifier(qualifier).name, Resolve(ix, fieldType, qualifier, assignable);
      && (n !in ix.byName ==> r == Err(NameNotFound(n)))
      && (n in ix.byName && !assignable(ix.byName[n].instance.typ, fieldType) ==>
            r == Err(NotAssignable(n, ix.byName[n].instance.typ, fieldType)))
  {
  }

  /** What resolution finds: a by-type form gives the indexed provider when
      the field's type is indexed, a by-name form gives the named component
      when it exists and is assignable, and an optional form that finds
      nothing gives no value. */
  lemma ResolveFound(ix: Index, fieldType: GoType, qualifier: string, assignable: (GoType, GoType) -> bool)
    ensures var d, r := ParseQualifier(qualifier), Resolve(ix, fieldType, qualifier, assignable);
      && (!d.ByName? && fieldType in ix.byType ==> r == Ok(Some(ix.byType[fieldType].instance)))
      && (d.OptionalByType? && fieldType !in ix.byType ==> r == Ok(None))
      && (d.ByName? && d.name in ix.byName && assignable(ix.byName[d.name].instance.typ, fieldType) ==>
            r == Ok(Some(ix.byName[d.name].instance)))
      && (d.ByName? && d.optional && (d.name !in ix.byName || !assignable(ix.byName[d.name].instance.typ, fieldType)) ==>
            r == Ok(None))
  {
  }

  /** What injection does with one field: untagged and unexported fields are
      skipped, and a failed resolution is swallowed on an optional tag. */
  function SlotAction(ix: Index, s: Slot, assignable: (GoType, GoType) -> bool): (r: Action)
    ensures s.tag.None? || !s.canSet ==> r.Skip?
    ensures r.Fail? <==>
      s.tag.Some? && s.canSet && !TagIsOptional(s.tag.value) && Resolve(ix, s.declaredType, s.tag.value, assignable).Err?
    ensures r.Fail? ==> r.error == FieldFailed(s.fieldName, Resolve(ix, s.declaredType, s.tag.value, assignable).error)
    ensures r.Assign? ==> s.tag.Some? && Resolve(ix, s.declaredType, s.tag.value, assignable) == Ok(Some(r.dependency))
    ensures s.tag.Some? && s.canSet && Resolve(ix, s.declaredType, s.tag.value, assignable).Ok?
            && Resolve(ix, s.declaredType, s.tag.value, assignable).value.Some? ==>
      r == Assign(Resolve(ix, s.declaredType, s.tag.value, assignable).value.value)
  {
    match s.tag
    case None => Skip
    case Some(tag) =>
      if !s.canSet then Skip
      else
        match Resolve(ix, s.declaredType, tag, assignable)
        case Err(e) => if TagIsOptional(tag) then Skip else Fail(FieldFailed(s.fieldName, e))
        case Ok(None) => Skip
        case Ok(Some(d)) => Assign(d)
  }

  /** The error of the first failing field from position `i` on. */
  function ErrorFrom(ix: Index, slots: seq<Slot>, assignable: (GoType, GoType) -> bool, i: nat): (r: Option<Error>)
    decreases |slots| - i, 1
  {
    if i >= |slots| then None else ErrorAt(ix, slots, assignable, i)
  }

  /** The error of field `i` if it fails, otherwise that of the fields after it. */
  function ErrorAt(ix: Index, slots: seq<Slot>, assignable: (GoType, GoType) -> bool, i: nat): (r: Option<Error>)
    requires i < |slots|
    decreases |slots| - i, 0
  {
    match SlotAction(ix, slots[i], assignable)
    case Fail(e) => Some(e)
    case _ => ErrorFrom(ix, slots, assignable, i + 1)
  }

  /** The field values `vals` after the fields from position `i` on have been
      injected, up to the first failing one. */
  function FieldsFrom(ix: Index, slots: seq<Slot>, vals: seq<Instance?>, assignable: (GoType, GoType) -> bool, i: nat)
    : (r: seq<Instance?>)
    ensures |r| == |vals|
    ensures forall k :: 0 <= k < |vals| && k < i ==> r[k] == vals[k]
    decreases |slots| - i, 1
  {
    if i >= |slots| then vals else FieldsAt(ix, slots, vals, assignable, i)
  }

  /** The field values after field `i` and those after it have been injected. */
  function FieldsAt(ix: Index, slots: seq<Slot>, vals: seq<Instance?>, assignable: (GoType, GoType) -> bool, i: nat)
    : (r: seq<Instance?>)
    requires i < |slots|
    ensures |r| == |vals|
    ensures forall k :: 0 <= k < |vals| && k < i ==> r[k] == vals[k]
    decreases |slots| - i, 0
  {
    match SlotAction(ix, slots[i], assignable)
    case Fail(_) => vals
    case Assign(d) => FieldsFrom(ix, slots, if i < |vals| then vals[i := d] else vals, assignable, i + 1)
    case Skip => FieldsFrom(ix, slots, vals, assignable, i + 1)
  }

  /** The error injecting `inst` reports: that of its first failing field;
      an instance that is not a pointer is left alone. */
  function InjectionError(ix: Index, inst: Instance, assignable: (GoType, GoType) -> bool): (r: Option<Error>) {
    if !inst.typ.Pointer? then None else ErrorFrom(ix, inst.slots, assignable, 0)
  }

  /** The fields of `inst`, previously `vals`, after injecting it. */
  function InjectedFields(ix: Index, inst: Instance, vals: seq<Instance?>, assignable: (GoType, GoType) -> bool)
    : (r: seq<Instance?>)
    ensures |r| == |vals|
    ensures !inst.typ.Pointer? ==> r == vals
  {
    if !inst.typ.Pointer? then vals else FieldsFrom(ix, inst.slots, vals, assignable, 0)
  }

  lemma {:induction false} FieldsFromTwice(ix: Index, slots: seq<Slot>, vals: seq<Instance?>,
                                           assignable: (GoType, GoType) -> bool, i: nat)
    ensures FieldsFrom(ix, slots, FieldsFrom(ix, slots, vals, assignable, i), assignable, i)
         == FieldsFrom(ix, slots, vals, assignable, i)
    decreases |slots| - i
  {
    if i < |slots| {
      var w := FieldsFrom(ix, slots, vals, assignable, i);
      match SlotAction(ix, slots[i], assignable)
      case Fail(_) =>
      case Assign(d) =>
        var u := if i < |vals| then vals[i := d] else vals;
        FieldsFromTwice(ix, slots, u, assignable, i + 1);
        if i < |vals| {
          assert w[i] == u[i] == d;
          assert w[i := d] == w;
        }
      case Skip =>
        FieldsFromTwice(ix, slots, vals, assignable, i + 1);
    }
  }

  /** Injecting twice sets the same fields to the same values. */
  lemma InjectedFieldsTwice(ix: Index, inst: Instance, vals: seq<Instance?>, assignable: (GoType, GoType) -> bool)
    ensures InjectedFields(ix, inst, InjectedFields(ix, inst, vals, assignable), assignable)
         == InjectedFields(ix, inst, vals, assignable)
  {
    if inst.typ.Pointer? {
      FieldsFromTwice(ix, inst.slots, vals, assignable, 0);
    }
  }

  lemma {:induction false} FieldsFromSuccess(ix: Index, slots: seq<Slot>, vals: seq<Instance?>,
                                             assignable: (GoType, GoType) -> bool, i: nat)
    requires ErrorFrom(ix, slots, assignable, i).None?
    ensures forall k :: i <= k < |vals| && k < |slots| ==>
      FieldsFrom(ix, slots, vals, assignable, i)[k] ==
        match SlotAction(ix, slots[k], assignable)
        case Assign(d) => d
        case _ => vals[k]
    decreases |slots| - i
  {
    if i < |slots| {
      match SlotAction(ix, slots[i], assignable)
      case Assign(d) =>
        var u := if i < |vals| then vals[i := d] else vals;
        FieldsFromSuccess(ix, slots, u, assignable, i + 1);
      case Skip =>
        FieldsFromSuccess(ix, slots, vals, assignable, i + 1);
    }
  }

  /** When injection reports no error, every field whose tag resolves to a
      dependency holds it and every other field keeps its value. */
  lemma InjectionSuccess(ix: Index, inst: Instance, vals: seq<Instance?>, assignable: (GoType, GoType) -> bool)
    requires inst.typ.Pointer? && InjectionError(ix, inst, assignable).None?
    ensures forall k :: 0 <= k < |vals| && k < |inst.slots| ==>
      InjectedFields(ix, inst, vals, assignable)[k] ==
        match SlotAction(ix, inst.slots[k], assignable)
        case Assign(d) => d
        case _ => vals[k]
  {
    FieldsFromSuccess(ix, inst.slots, vals, assignable, 0);
  }

  /** Whether field `k` of `slots` is assigned when injection starts at
      position `i`: no field from `i` up to `k` fails, and `k` finds a dependency. */
  ghost predicate AssignedFrom(ix: Index, slots: seq<Slot>, assignable: (GoType, GoType) -> bool, i: nat, k: nat)
    requires k < |slots|
  {
    && (forall j :: i <= j <= k ==> !SlotAction(ix, slots[j], assignable).Fail?)
    && SlotAction(ix, slots[k], assignable).Assign?
  }

  /** Whatever the outcome, a field from position `i` on holds its dependency
      when it is assigned before the loop stops, and keeps its value otherwise:
      the failing field and every field after it are untouched. */
  lemma {:induction false} FieldsFromAny(ix: Index, slots: seq<Slot>, vals: seq<Instance?>,
                                         assignable: (GoType, GoType) -> bool, i: nat)
    ensures forall k :: i <= k < |vals| && k < |slots| ==>
      FieldsFrom(ix, slots, vals, assignable, i)[k] ==
        if AssignedFrom(ix, slots, assignable, i, k) then SlotAction(ix, slots[k], assignable).dependency else vals[k]
    ensures forall k :: |slots| <= k < |vals| ==> FieldsFrom(ix, slots, vals, assignable, i)[k] == vals[k]
    decreases |slots| - i
  {
    if i < |slots| {
      match SlotAction(ix, slots[i], assignable)
      case Fail(_) =>
        assert forall k :: i <= k < |slots| ==> !AssignedFrom(ix, slots, assignable, i, k);
      case Assign(d) =>
        var u := if i < |vals| then vals[i := d] else vals;
        assert FieldsFrom(ix, slots, vals, assignable, i) == FieldsFrom(ix, slots, u, assignable, i + 1);
        FieldsFromAny(ix, slots, u, assignable, i + 1);
        LaterAssignedFrom(ix, slots, assignable, i);
      case Skip =>
        FieldsFromAny(ix, slots, vals, assignable, i + 1);
        LaterAssignedFrom(ix, slots, assignable, i);
    }
  }

  /** Past a field that does not fail, a later field is assigned from `i`
      exactly when it is assigned from `i + 1`. */
  lemma LaterAssignedFrom(ix: Index, slots: seq<Slot>, assignable: (GoType, GoType) -> bool, i: nat)
    requires i < |slots| && !SlotAction(ix, slots[i], assignable).Fail?
    ensures forall k :: i < k < |slots| ==>
      (AssignedFrom(ix, slots, assignable, i, k) <==> AssignedFrom(ix, slots, assignable, i + 1, k))
  {
  }

  /** The fields of an instance after injection, whether or not it fails: a
      field up to the first failing one holds the dependency it finds, and
      every other field, the failing one included, keeps its value. */
  lemma InjectedFieldsAny(ix: Index, inst: Instance, vals: seq<Instance?>, assignable: (GoType, GoType) -> bool)
    ensures forall k :: 0 <= k < |vals| ==>
      InjectedFields(ix, inst, vals, assignable)[k] ==
        if inst.typ.Pointer? && k < |inst.slots| && AssignedFrom(ix, inst.slots, assignable, 0, k)
        then SlotAction(ix, inst.slots[k], assignable).dependency else vals[k]
  {
    if inst.typ.Pointer? {
      FieldsFromAny(ix, inst.slots, vals, assignable, 0);
    }
  }

  /** No field from position `i` on fails when the fields from `i` on report no error. */
  lemma {:induction false} ErrorFromNone(ix: Index, slots: seq<Slot>, assignable: (GoType, GoType) -> bool, i: nat)
    requires ErrorFrom(ix, slots, assignable, i).None?
    ensures forall k :: i <= k < |slots| ==> !SlotAction(ix, slots[k], assignable).Fail?
    decreases |slots| - i
  {
    if i < |slots| {
      ErrorFromNone(ix, slots, assignable, i + 1);
    }
  }

  /** The fields from position `i` on report an error exactly when one of
      them fails, and the error is that of the first failing field. */
  lemma {:induction false} ErrorFromFirst(ix: Index, slots: seq<Slot>, assignable: (GoType, GoType) -> bool, i: nat)
    ensures ErrorFrom(ix, slots, assignable, i).Some? <==>
      exists k :: i <= k < |slots| && SlotAction(ix, slots[k], assignable).Fail?
    ensures ErrorFrom(ix, slots, assignable, i).Some? ==>
      exists k :: i <= k < |slots| && SlotAction(ix, slots[k], assignable).Fail?
        && ErrorFrom(ix, slots, assignable, i).value == SlotAction(ix, slots[k], assignable).error
        && forall j :: i <= j < k ==> !SlotAction(ix, slots[j], assignable).Fail?
    decreases |slots| - i
  {
    if i < |slots| {
      ErrorFromFirst(ix, slots, assignable, i + 1);
    }
  }

  /** Injecting an instance fails exactly when it is a pointer and one of its
      fields fails; the error is the first failing field's `FieldFailed`. */
  lemma InjectionErrorFirst(ix: Index, inst: Instance, assignable: (GoType, GoType) -> bool)
    ensures InjectionError(ix, inst, assignable).Some? <==>
      inst.typ.Pointer? && exists k :: 0 <= k < |inst.slots| && SlotAction(ix, inst.slots[k], assignable).Fail?
    ensures InjectionError(ix, inst, assignable).Some? ==>
      exists k :: 0 <= k < |inst.slots| && SlotAction(ix, inst.slots[k], assignable).Fail?
        && (forall j :: 0 <= j < k ==> !SlotAction(ix, inst.slots[j], assignable).Fail?)
        && InjectionError(ix, inst, assignable).value ==
             FieldFailed(inst.slots[k].fieldName, Resolve(ix, inst.slots[k].declaredType, inst.slots[k].tag.value, assignable).error)
  {
    if inst.typ.Pointer? {
      ErrorFromFirst(ix, inst.slots, assignable, 0);
    }
  }

  /** After a component is injected without error, each settable field with a
      required tag holds a dependency: the component of that name, assignable
      to the field, or the provider the type index records for the field's type. */
  lemma RequiredFieldBound(ix: Index, inst: Instance, vals: seq<Instance?>, assignable: (GoType, GoType) -> bool, k: nat)
    requires inst.typ.Pointer? && InjectionError(ix, inst, assignable).None?
    requires k < |vals| && k < |inst.slots|
    requires inst.slots[k].tag.Some? && inst.slots[k].canSet && !TagIsOptional(inst.slots[k].tag.value)
    ensures var s, v := inst.slots[k], InjectedFields(ix, inst, vals, assignable)[k];
      var d := ParseQualifier(s.tag.value);
      && v != null
      && (d.ByName? ==> d.name in ix.byName && v == ix.byName[d.name].instance && assignable(v.typ, s.declaredType))
      && (!d.ByName? ==> s.declaredType in ix.byType && v == ix.byType[s.declaredType].instance)
  {
    var s := inst.slots[k];
    InjectionSuccess(ix, inst, vals, assignable);
    ErrorFromNone(ix, inst.slots, assignable, 0);
    ParseQualifierCases(s.tag.value);
    ResolveRules(ix, s.declaredType, s.tag.value, assignable);
  }

  /** The components injection visits: up to and including the first that fails. */
  function Reached(ix: Index, cs: seq<ComponentInfo>, assignable: (GoType, GoType) -> bool): (r: seq<ComponentInfo>) {
    var f := FirstFailing(ix, cs, assignable);
    if f < |cs| then cs[..f + 1] else cs
  }

  /** The position of the first component whose injection fails, or `|cs|`. */
  function FirstFailing(ix: Index, cs: seq<ComponentInfo>, assignable: (GoType, GoType) -> bool): (k: nat)
    ensures k <= |cs|
    ensures k < |cs| ==> InjectionError(ix, cs[k].instance, assignable).Some?
  {
    if cs == [] then 0
    else if InjectionError(ix, cs[0].instance, assignable).Some? then 0
    else 1 + FirstFailing(ix, cs[1..], assignable)
  }

  /** Every component before the first failing one is injected without error. */
  lemma {:induction false} FirstFailingPrefix(ix: Index, cs: seq<ComponentInfo>, assignable: (GoType, GoType) -> bool)
    ensures forall j :: 0 <= j < FirstFailing(ix, cs, assignable) ==> InjectionError(ix, cs[j].instance, assignable).None?
  {
    if cs != [] && InjectionError(ix, cs[0].instance, assignable).None? {
      FirstFailingPrefix(ix, cs[1..], assignable);
      forall j | 0 <= j < FirstFailing(ix, cs, assignable)
        ensures InjectionError(ix, cs[j].instance, assignable).None?
      {
        if j > 0 { assert cs[j] == cs[1..][j - 1]; }
      }
    }
  }

  /** One step of the injection loop: when no component before `i` failed,
      the outcome of `cs[i]` says whether `i` is the first failure. */
  lemma FailingStep(ix: Index, cs: seq<ComponentInfo>, assignable: (GoType, GoType) -> bool, i: nat)
    requires i < |cs| && i <= FirstFailing(ix, cs, assignable)
    ensures InjectionError(ix, cs[i].instance, assignable).Some? ==>
      FirstFailing(ix, cs, assignable) == i && Reached(ix, cs, assignable) == cs[..i + 1]
    ensures InjectionError(ix, cs[i].instance, assignable).None? ==> i < FirstFailing(ix, cs, assignable)
  {
    FirstFailingPrefix(ix, cs, assignable);
  }

  /** Names are unique and indexed, and every type-index entry is a
      registered component that exports that type. */
  ghost predicate Indexed(cs: seq<ComponentInfo>, byName: map<string, ComponentInfo>, byType: map<GoType, ComponentInfo>) {
    && NamesDistinct(cs)
    && byName.Keys == NameSet(cs)
    && (forall i :: 0 <= i < |cs| ==> cs[i].name in byName && byName[cs[i].name] == cs[i])
    && (forall t :: t in byType ==> byType[t] in cs && t in byType[t].exportedTypes)
  }

  /** Registering a component under a fresh name keeps the indexes in agreement. */
  lemma IndexedPush(cs: seq<ComponentInfo>, byName: map<string, ComponentInfo>, byType: map<GoType, ComponentInfo>,
                    info: ComponentInfo)
    requires Indexed(cs, byName, byType) && info.name !in byName
    ensures Indexed(cs + [info], byName[info.name := info], byType)
  {
    NameSetPush(cs, info);
    assert (cs + [info])[..|cs|] == cs;
  }

  class Container {
    var componentsByName: map<string, ComponentInfo>
    var componentsByType: map<GoType, ComponentInfo>
    var components: seq<ComponentInfo>
    var started: bool

    /** The indexes agree with the registered components. */
    ghost predicate Valid()
      reads this`components, this`componentsByName, this`componentsByType
    {
      Indexed(components, componentsByName, componentsByType)
    }

    constructor ()
      ensures Valid()
      ensures componentsByName == map[] && componentsByType == map[] && components == [] && !started
    {
      componentsByName := map[];
      componentsByType := map[];
      components := [];
      started := false;
    }

    /** Starts the fluent registration of `instance`. */
    method Object(instance: Instance) returns (b: ObjectBuilder)
      ensures fresh(b) && b.Valid() && b.container == this && b.instance == instance
      ensures b.name == DefaultName(instance.typ) && b.priority == 0
      ensures b.exportedTypes == [instance.typ] && !b.isPrimary && !b.nameSet && !b.prioritySet
    {
      b := new ObjectBuilder(this, instance);
    }

    /** Adds a component unless its name is taken. */
    method RegisterComponent(info: ComponentInfo) returns (err: Option<Error>)
      requires Valid()
      modifies this`componentsByName, this`components
      ensures Valid()
      ensures old(info.name in componentsByName) ==>
        && err == Some(DuplicateName(info.name, old(componentsByName[info.name].instanceType), info.instanceType))
        && components == old(components) && componentsByName == old(componentsByName)
      ensures old(info.name !in componentsByName) ==>
        && err == None
        && components == old(components) + [info]
        && componentsByName == old(componentsByName)[info.name := info]
    {
      if info.name in componentsByName {
        var existing := componentsByName[info.name];
        return Some(DuplicateName(info.name, existing.instanceType, info.instanceType));
      }
      IndexedPush(components, componentsByName, componentsByType, info);
      componentsByName := componentsByName[info.name := info];
      components := components + [info];
      return None;
    }

    /** The two indexes the lookups read. */
    function Indexes(): (r: Index)
      reads this`componentsByName, this`componentsByType
    {
      Index(componentsByName, componentsByType)
    }

    method GetByName(name: string) returns (r: Result<Instance>)
      requires Valid()
      ensures r == LookupName(Indexes(), name)
      ensures r.Ok? <==> exists i :: 0 <= i < |components| && components[i].name == name
      ensures r.Ok? ==> exists i :: 0 <= i < |components| && components[i].name == name
                                    && components[i].instance == r.value
      ensures r.Err? ==> r.error == NameNotFound(name)
    {
      r := LookupName(Indexes(), name);
      if r.Ok? {
        var i :| 0 <= i < |components| && components[i].name == name;
      }
    }

    method GetByType(t: GoType) returns (r: Result<Instance>)
      requires Valid()
      ensures r == LookupType(Indexes(), t)
      ensures r.Ok? <==> t in componentsByType
      ensures r.Ok? ==> exists i :: 0 <= i < |components| && components[i] == componentsByType[t]
                                    && components[i].instance == r.value && t in components[i].exportedTypes
      ensures r.Err? ==> r.error == TypeNotFound(t)
    {
      r := LookupType(Indexes(), t);
    }

    /** Injects the fields of one component in place. */
    method InjectComponent(inst: Instance, assignable: (GoType, GoType) -> bool) returns (err: Option<Error>)
      modifies inst
      ensures err == InjectionError(old(Indexes()), inst, assignable)
      ensures inst.fields == InjectedFields(old(Indexes()), inst, old(inst.fields), assignable)
    {
      if !inst.typ.Pointer? {
        return None;
      }
      var ix := Indexes();
      var i := 0;
      while i < |inst.slots|
        invariant 0 <= i <= |inst.slots| && |inst.fields| == |old(inst.fields)|
        invariant ErrorFrom(ix, inst.slots, assignable, i) == InjectionError(ix, inst, assignable)
        invariant FieldsFrom(ix, inst.slots, inst.fields, assignable, i) == InjectedFields(ix, inst, old(inst.fields), assignable)
      {
        var slot := inst.slots[i];
        if slot.tag.Some? {
          var tag := slot.tag.value;
          if !slot.canSet {
            i := i + 1;
            continue;
          }
          var isOptional := TagIsOptional(tag);
          var dependency := Resolve(ix, slot.declaredType, tag, assignable);
          if dependency.Err? {
            if isOptional {
              i := i + 1;
              continue;
            }
            return Some(FieldFailed(slot.fieldName, dependency.error));
          }
          if dependency.value.Some? && i < |inst.fields| {
            inst.fields := inst.fields[i := dependency.value.value];
          }
        }
        i := i + 1;
      }
      err := None;
    }

    /** Injects every component in registration order, stopping at the first
        component that fails. */
    method InjectDependencies(assignable: (GoType, GoType) -> bool) returns (err: Option<Error>)
      modifies InstancesOf(components)
      ensures var cs, ix := old(components), old(Indexes());
        var f := FirstFailing(ix, cs, assignable);
        err == if f < |cs| then Some(InjectFailed(cs[f].name, InjectionError(ix, cs[f].instance, assignable).value)) else None
      ensures var cs, ix := old(components), old(Indexes());
        forall x :: x in InstancesOf(cs) ==>
          x.fields == if x in InstancesOf(Reached(ix, cs, assignable)) then InjectedFields(ix, x, old(x.fields), assignable) else old(x.fields)
    {
      ghost var ix := Indexes();
      var cs := components;
      ghost var all := InstancesOf(cs);
      ghost var orig := map x | x in all :: x.fields;
      var i := 0;
      while i < |cs|
        invariant 0 <= i <= |cs| && ix == Indexes()
        invariant i <= FirstFailing(ix, cs, assignable)
        invariant forall x :: x in all ==> x in orig && orig[x] == old(x.fields)
        invariant forall x :: x in all ==>
          x.fields == if x in InstancesOf(cs[..i]) then InjectedFields(ix, x, orig[x], assignable) else orig[x]
      {
        var info := cs[i];
        var e := InjectRound(cs, i, assignable, ix, orig);
        if e.Some? {
          return Some(InjectFailed(info.name, e.value));
        }
        i := i + 1;
      }
      assert cs[..i] == cs;
      err := None;
    }

    /** One round of the injection loop: injects `cs[i]`, which then counts
        among the components done. */
    method InjectRound(cs: seq<ComponentInfo>, i: nat, assignable: (GoType, GoType) -> bool, ghost ix: Index,
                       ghost orig: map<Instance, seq<Instance?>>)
      returns (e: Option<Error>)
      requires i < |cs| && i <= FirstFailing(ix, cs, assignable)
      requires ix == Indexes()
      requires forall x :: x in InstancesOf(cs) ==> x in orig
      requires forall x :: x in InstancesOf(cs) ==>
        x.fields == if x in InstancesOf(cs[..i]) then InjectedFields(ix, x, orig[x], assignable) else orig[x]
      modifies cs[i].instance
      ensures e == InjectionError(ix, cs[i].instance, assignable)
      ensures e.Some? ==> FirstFailing(ix, cs, assignable) == i && Reached(ix, cs, assignable) == cs[..i + 1]
      ensures e.None? ==> i < FirstFailing(ix, cs, assignable)
      ensures forall x :: x in InstancesOf(cs) ==>
        x.fields == if x in InstancesOf(cs[..i + 1]) then InjectedFields(ix, x, orig[x], assignable) else orig[x]
    {
      var inst := cs[i].instance;
      FailingStep(ix, cs, assignable, i);
      InstancesOfPush(cs, i);
      if inst in InstancesOf(cs[..i]) {
        InjectedFieldsTwice(ix, inst, orig[inst], assignable);
      }
      e := InjectComponent(inst, assignable);
    }

    // ----- Type index -----

    /** Rebuilds the type index from scratch. */
    method ValidateTypeRegistrations() returns (err: Option<Error>)
      requires Valid()
      modifies this`componentsByType
      ensures Valid()
      ensures err.None? <==> Resolvable(components)
      ensures err.None? ==> componentsByType == ResolvedIndex(components)
      ensures err.Some? ==> exists t :: t in Exported(components) && ResolveType(components, t) == Err(err.value)
    {
      componentsByType := map[];
      var cs := components;
      var typeGroups := GroupByExport(cs);
      var index;
      index, err := ResolveGroups(cs, typeGroups);
      forall t | t in index ensures index[t] in cs && t in index[t].exportedTypes {
        SelectedIsExporter(cs, t);
      }
      componentsByType := index;
    }

    // ----- Lifecycle -----

    /** A copy of the components sorted by priority; the stored list keeps its order. */
    method GetSortedComponents(ascending: bool) returns (sorted: seq<ComponentInfo>)
      ensures multiset(sorted) == multiset(components)
      ensures SortedBy(sorted, ascending)
    {
      var cs := components;
      var a := new ComponentInfo[|cs|](i requires 0 <= i < |cs| => cs[i]);
      assert a[..] == cs;
      SortByPriority(a, ascending);
      sorted := a[..];
    }

    /** Runs Init on every implementer, highest priority first, up to the
        first failure. */
    method Initialize(failures: map<Instance, string>)
      returns (err: Option<Error>, invoked: seq<ComponentInfo>, order: seq<ComponentInfo>)
      ensures multiset(order) == multiset(components) && SortedBy(order, false)
      ensures invoked == Implementers(Visited(order, InitPhase, failures), InitPhase)
      ensures var k := FirstFailure(order, InitPhase, failures);
        err == if k < |order| then Some(InitFailed(order[k].name, failures[order[k].instance])) else None
    {
      order := GetSortedComponents(false);
      var k;
      k, invoked := InvokeUntilFailure(order, InitPhase, failures);
      if k < |order| {
        return Some(InitFailed(order[k].name, failures[order[k].instance])), invoked, order;
      }
      err := None;
    }

    /** Runs Start on every implementer, highest priority first, up to the
        first failure; the container counts as started only if all succeed. */
    method Start(failures: map<Instance, string>)
      returns (err: Option<Error>, invoked: seq<ComponentInfo>, order: seq<ComponentInfo>)
      modifies this`started
      ensures old(started) ==> err == Some(AlreadyStarted) && invoked == [] && started
      ensures !old(started) ==>
        && multiset(order) == multiset(components) && SortedBy(order, false)
        && invoked == Implementers(Visited(order, StartPhase, failures), StartPhase)
        && (var k := FirstFailure(order, StartPhase, failures);
            err == if k < |order| then Some(StartFailed(order[k].name, failures[order[k].instance])) else None)
        && started == err.None?
    {
      if started {
        return Some(AlreadyStarted), [], [];
      }
      order := GetSortedComponents(false);
      var k;
      k, invoked := InvokeUntilFailure(order, StartPhase, failures);
      if k < |order| {
        return Some(StartFailed(order[k].name, failures[order[k].instance])), invoked, order;
      }
      started := true;
      err := None;
    }

    /** Runs Stop on every implementer, lowest priority first, past failures,
        and reports the last failure. */
    method Stop(failures: map<Instance, string>)
      returns (err: Option<Error>, invoked: seq<ComponentInfo>, order: seq<ComponentInfo>)
      modifies this`started
      ensures !started
      ensures !old(started) ==> err == None && invoked == []
      ensures old(started) ==>
        && multiset(order) == multiset(components) && SortedBy(order, true)
        && invoked == Implementers(order, StopPhase)
        && (var k := LastFailure(order, StopPhase, failures);
            err == if k >= 0 then Some(StopFailed(order[k].name, failures[order[k].instance])) else None)
    {
      if !started {
        return None, [], [];
      }
      order := GetSortedComponents(true);
      var lastErr: Option<Error> := None;
      invoked := [];
      var i := 0;
      while i < |order|
        invariant 0 <= i <= |order|
        invariant invoked == Implementers(order[..i], StopPhase)
        invariant var k := LastFailure(order[..i], StopPhase, failures);
          lastErr == if k >= 0 then Some(StopFailed(order[k].name, failures[order[k].instance])) else None
      {
        var info := order[i];
        ImplementersStep(order, i, StopPhase);
        assert order[..i + 1][..i] == order[..i];
        if info.instance.implementsStop {
          invoked := invoked + [info];
          if info.instance in failures {
            lastErr := Some(StopFailed(info.name, failures[info.instance]));
          }
        }
        i := i + 1;
      }
      assert order[..i] == order;
      started := false;
      err := lastErr;
    }

    // ----- The whole startup -----

    /** Commits a batch of builders in order, stopping at the first failure. */
    method RegisterPendingBuilders(pending: seq<ObjectBuilder>) returns (err: Option<Error>)
      requires Valid()
      requires forall b :: b in pending ==> b.container == this
      modifies this`componentsByName, this`components
      ensures Valid()
      ensures var infos := old(BuilderInfos(pending));
        var k := FirstDuplicate(old(NameSet(components)), infos);
        && components == old(components) + infos[..k]
        && (k == |infos| ==> err == None)
        && (k < |infos| ==>
              && infos[k].name in componentsByName
              && err == Some(DuplicateName(infos[k].name, componentsByName[infos[k].name].instanceType, infos[k].instanceType)))
    {
      ghost var infos, before := BuilderInfos(pending), components;
      ghost var existing := NameSet(before);
      var i := 0;
      while i < |pending|
        invariant 0 <= i <= |pending| && i <= FirstDuplicate(existing, infos)
        invariant Valid()
        invariant components == before + infos[..i]
      {
        assert pending[i].Info() == infos[i] && pending[i].container == this;
        var e := RegisterRound(pending[i], before, infos, i);
        if e.Some? {
          return e;
        }
        i := i + 1;
      }
      assert infos[..i] == infos;
      err := None;
    }

    /** One round of the commit loop: registers the builder for `infos[i]`
        after `infos[..i]` went in. */
    method RegisterRound(b: ObjectBuilder, ghost before: seq<ComponentInfo>, ghost infos: seq<ComponentInfo>, ghost i: nat)
      returns (e: Option<Error>)
      requires Valid() && b.container == this
      requires i < |infos| && b.Info() == infos[i] && i <= FirstDuplicate(NameSet(before), infos)
      requires components == before + infos[..i]
      modifies this`componentsByName, this`components
      ensures Valid()
      ensures e.None? ==> components == before + infos[..i + 1] && i + 1 <= FirstDuplicate(NameSet(before), infos)
      ensures e.Some? ==>
        && FirstDuplicate(NameSet(before), infos) == i && components == before + infos[..i]
        && infos[i].name in componentsByName
        && e == Some(DuplicateName(infos[i].name, componentsByName[infos[i].name].instanceType, infos[i].instanceType))
    {
      NameSetAppend(before, infos[..i]);
      DuplicateStep(NameSet(before), infos, i);
      e := b.Register();
      if e.None? {
        PushPrefix(before, infos, i);
      }
    }

    /** Register pending builders, rebuild the type index, inject, Init, Start;
        the first phase that fails ends the run and its error is wrapped. */
    method Run(pending: seq<ObjectBuilder>, assignable: (GoType, GoType) -> bool,
               initFailures: map<Instance, string>, startFailures: map<Instance, string>)
      returns (err: Option<Error>)
      requires Valid()
      requires forall b :: b in pending ==> b.container == this
      modifies this, InstancesOf(components), set b | b in pending :: b.instance
      ensures Valid()
      ensures var infos := old(BuilderInfos(pending));
        var k := FirstDuplicate(old(NameSet(components)), infos);
        && components == old(components) + infos[..k]
        && (RunStep(err) == 0 <==> k < |infos|)
        && (RunStep(err) == 0 ==>
              infos[k].name in componentsByName &&
              err.value.cause == DuplicateName(infos[k].name, componentsByName[infos[k].name].instanceType, infos[k].instanceType))
      ensures RunStep(err) == 0 ==> componentsByType == old(componentsByType)
      ensures RunStep(err) > 0 ==>
        AfterRegistration(err, components, Indexes(), old(started), assignable, initFailures, startFailures)
      ensures RunStep(err) > 0 ==>
        InstancesOf(components) == old(InstancesOf(components) + set b | b in pending :: b.instance)
      ensures forall x :: x in old(InstancesOf(components) + set b | b in pending :: b.instance) ==>
        var before := old(x.fields);
        x.fields == if RunStep(err) <= 1 then before else FieldsAfterInjection(Indexes(), components, assignable, x, before)
      ensures started == (old(started) || err.None?)
    {
      ghost var infos, before := BuilderInfos(pending), components;
      ghost var added := set b | b in pending :: b.instance;
      ghost var wasStarted, byType := started, componentsByType;
      BuilderInstances(pending);
      var e := RegisterPendingBuilders(pending);
      assert started == wasStarted && componentsByType == byType;
      if e.Some? {
        return Some(RegistrationFailed(e.value));
      }
      assert infos[..|infos|] == infos;
      InstancesOfAppend(before, infos);
      assert InstancesOf(components) == InstancesOf(before) + added;
      err := RunPhases(assignable, initFailures, startFailures);
      assert AfterRegistration(err, components, Indexes(), wasStarted, assignable, initFailures, startFailures);
    }

    /** The phases of `Run` after registration: rebuild the type index,
        inject, Init, Start. */
    method RunPhases(assignable: (GoType, GoType) -> bool,
                     initFailures: map<Instance, string>, startFailures: map<Instance, string>)
      returns (err: Option<Error>)
      requires Valid()
      modifies this`componentsByType, this`started, InstancesOf(components)
      ensures Valid() && components == old(components)
      ensures AfterRegistration(err, components, Indexes(), old(started), assignable, initFailures, startFailures)
      ensures RunStep(err) == 1 ==> forall x :: x in InstancesOf(components) ==> x.fields == old(x.fields)
      ensures RunStep(err) > 1 ==> forall x :: x in InstancesOf(components) ==>
        x.fields == FieldsAfterInjection(Indexes(), components, assignable, x, old(x.fields))
      ensures started == (old(started) || err.None?)
    {
      ghost var cs, wasStarted := components, started;
      var e := ValidateTypeRegistrations();
      if e.Some? {
        assert !Resolvable(cs);
        return Some(TypeValidationFailed(e.value));
      }
      ghost var resolved := componentsByType;
      assert Resolvable(cs) && resolved == ResolvedIndex(cs);
      err := InjectAndStart(assignable, initFailures, startFailures);
      assert components == cs && componentsByType == resolved;
      assert LaterPhases(err, cs, Indexes(), wasStarted, assignable, initFailures, startFailures);
    }

    /** The phases of `Run` after the type index is rebuilt: inject, Init, Start. */
    method InjectAndStart(assignable: (GoType, GoType) -> bool,
                          initFailures: map<Instance, string>, startFailures: map<Instance, string>)
      returns (err: Option<Error>)
      modifies this`started, InstancesOf(components)
      ensures components == old(components) && componentsByName == old(componentsByName)
      ensures componentsByType == old(componentsByType)
      ensures LaterPhases(err, components, Indexes(), old(started), assignable, initFailures, startFailures)
      ensures forall x :: x in InstancesOf(components) ==>
        x.fields == FieldsAfterInjection(Indexes(), components, assignable, x, old(x.fields))
      ensures started == (old(started) || err.None?)
    {
      ghost var objs: set<object> := InstancesOf(components);
      assert this !in objs;
      var e := InjectDependencies(assignable);
      if e.Some? {
        return Some(DependencyInjectionFailed(e.value));
      }
      err := InitAndStart(initFailures, startFailures);
    }

    /** The last two phases of `Run`: Init, then Start. */
    method InitAndStart(initFailures: map<Instance, string>, startFailures: map<Instance, string>)
      returns (err: Option<Error>)
      modifies this`started
      ensures RunStep(err) == PhaseOutcome(components, old(started), initFailures, startFailures)
      ensures PhaseCause(err, components, old(started), initFailures, startFailures)
      ensures started == (old(started) || err.None?)
    {
      var e, invoked, order := Initialize(initFailures);
      FirstFailureNone(order, InitPhase, initFailures);
      NoneFailsPermutation(order, components, InitPhase, initFailures);
      if e.Some? {
        FirstFailureSorted(order, components, InitPhase, initFailures, false);
        return Some(InitializationFailed(e.value));
      }
      var wasStarted := started;
      e, invoked, order := Start(startFailures);
      if !wasStarted {
        FirstFailureNone(order, StartPhase, startFailures);
        NoneFailsPermutation(order, components, StartPhase, startFailures);
        if e.Some? {
          FirstFailureSorted(order, components, StartPhase, startFailures, false);
        }
      }
      if e.Some? {
        return Some(StartupFailed(e.value));
      }
      err := None;
    }
  }

  /** Invokes the phase on the implementers of `order` up to the first
      failure; `k` is the failure's position, or `|order|`. */
  method InvokeUntilFailure(order: seq<ComponentInfo>, p: Phase, failures: map<Instance, string>)
    returns (k: nat, invoked: seq<ComponentInfo>)
    ensures k == FirstFailure(order, p, failures)
    ensures invoked == Implementers(Visited(order, p, failures), p)
  {
    invoked := [];
    var i := 0;
    while i < |order|
      invariant 0 <= i <= |order|
      invariant forall j :: 0 <= j < i ==> !Fails(order[j], p, failures)
      invariant invoked == Implementers(order[..i], p)
    {
      var info := order[i];
      ImplementersStep(order, i, p);
      if Implements(info, p) {
        invoked := invoked + [info];
        if info.instance in failures {
          FirstFailureAt(order, p, failures, i);
          return i, invoked;
        }
      }
      i := i + 1;
    }
    assert order[..i] == order;
    FirstFailureAt(order, p, failures, i);
    return i, invoked;
  }

  /** Groups the components by every type they export, in registration order. */
  method GroupByExport(cs: seq<ComponentInfo>) returns (groups: map<GoType, seq<ComponentInfo>>)
    ensures forall t :: GroupOf(groups, t) == Group(cs, t)
    ensures groups.Keys == Exported(cs)
  {
    groups := map[];
    var i := 0;
    while i < |cs|
      invariant 0 <= i <= |cs|
      invariant forall t :: t in groups ==> groups[t] != []
      invariant forall t :: GroupOf(groups, t) == Group(cs[..i], t)
    {
      groups := AddExports(groups, cs[i]);
      assert cs[..i + 1][..i] == cs[..i];
      i := i + 1;
    }
    assert cs[..i] == cs;
    forall t ensures t in groups <==> t in Exported(cs) {
      GroupEmpty(cs, t);
    }
  }

  /** Decides every group in turn, recording each decision in the type index,
      and stops at the first group that cannot be decided; the index built so
      far is returned either way. The groups are visited in no particular
      order, as a Go map is. */
  method ResolveGroups(cs: seq<ComponentInfo>, groups: map<GoType, seq<ComponentInfo>>)
    returns (index: map<GoType, ComponentInfo>, err: Option<Error>)
    requires forall t :: GroupOf(groups, t) == Group(cs, t)
    requires groups.Keys == Exported(cs)
    ensures forall t :: t in index ==> t in Exported(cs) && ResolveType(cs, t) == Ok(index[t])
    ensures err.None? <==> Resolvable(cs)
    ensures err.None? ==> index == ResolvedIndex(cs)
    ensures err.Some? ==> exists t :: t in Exported(cs) && ResolveType(cs, t) == Err(err.value)
  {
    index := map[];
    var pending := groups.Keys;
    while pending != {}
      invariant pending <= groups.Keys
      invariant index.Keys == groups.Keys - pending
      invariant forall t :: t in index ==> ResolveType(cs, t) == Ok(index[t])
      decreases pending
    {
      var t :| t in pending;
      pending := pending - {t};
      var group := groups[t];
      assert group == GroupOf(groups, t);
      assert ResolveType(cs, t) == Select(t, group);
      if |group| == 1 {
        index := index[t := group[0]];
        continue;
      }
      var primaries := FilterPrimaries(group);
      if |primaries| == 0 {
        var names := CollectNames(group);
        UnresolvableAt(cs, t);
        return index, Some(Ambiguous(t, names));
      }
      if |primaries| > 1 {
        var names := CollectNames(primaries);
        UnresolvableAt(cs, t);
        return index, Some(MultiplePrimary(t, names));
      }
      index := index[t := primaries[0]];
    }
    ResolvedIndexUnique(cs, index);
    err := None;
  }

  /** Listing one more exported type adds one more copy of the component to
      that type's group and leaves the other groups alone. */
  lemma ExportStep(info: ComponentInfo, j: nat, t: GoType)
    requires j < |info.exportedTypes|
    ensures Repeat(info, Count(info.exportedTypes[..j + 1], t))
         == Repeat(info, Count(info.exportedTypes[..j], t)) + (if t == info.exportedTypes[j] then [info] else [])
  {
    assert info.exportedTypes[..j + 1][..j] == info.exportedTypes[..j];
    var c := Count(info.exportedTypes[..j], t);
    if t == info.exportedTypes[j] {
      assert Repeat(info, c + 1) == Repeat(info, c) + [info];
    }
  }

  /** Appending `info` to the group of its `j`-th exported type accounts for
      that listing and for no other. */
  lemma AddExportStep(groups: map<GoType, seq<ComponentInfo>>, prev: map<GoType, seq<ComponentInfo>>,
                      info: ComponentInfo, j: nat)
    requires j < |info.exportedTypes|
    requires forall t :: GroupOf(prev, t) == GroupOf(groups, t) + Repeat(info, Count(info.exportedTypes[..j], t))
    requires forall t :: t in prev ==> prev[t] != []
    ensures var u := info.exportedTypes[j];
      var r := prev[u := GroupOf(prev, u) + [info]];
      && (forall t :: GroupOf(r, t) == GroupOf(groups, t) + Repeat(info, Count(info.exportedTypes[..j + 1], t)))
      && (forall t :: t in r ==> r[t] != [])
  {
    var u := info.exportedTypes[j];
    var r := prev[u := GroupOf(prev, u) + [info]];
    forall t ensures GroupOf(r, t) == GroupOf(groups, t) + Repeat(info, Count(info.exportedTypes[..j + 1], t)) {
      ExportStep(info, j, t);
      if t == u {
        assert GroupOf(r, t) == GroupOf(prev, t) + [info];
      } else {
        assert GroupOf(r, t) == GroupOf(prev, t);
      }
    }
  }

  /** Appends `info` to the group of each type it exports, once per listing. */
  method AddExports(groups: map<GoType, seq<ComponentInfo>>, info: ComponentInfo)
    returns (r: map<GoType, seq<ComponentInfo>>)
    requires forall t :: t in groups ==> groups[t] != []
    ensures forall t :: t in r ==> r[t] != []
    ensures forall t :: GroupOf(r, t) == GroupOf(groups, t) + Repeat(info, Count(info.exportedTypes, t))
  {
    r := groups;
    var j := 0;
    while j < |info.exportedTypes|
      invariant 0 <= j <= |info.exportedTypes|
      invariant forall t :: t in r ==> r[t] != []
      invariant forall t :: GroupOf(r, t) == GroupOf(groups, t) + Repeat(info, Count(info.exportedTypes[..j], t))
    {
      var exportedType := info.exportedTypes[j];
      AddExportStep(groups, r, info, j);
      r := r[exportedType := GroupOf(r, exportedType) + [info]];
      j := j + 1;
    }
    assert info.exportedTypes[..j] == info.exportedTypes;
  }

  /** The primary members of a group, collected in order. */
  method FilterPrimaries(group: seq<ComponentInfo>) returns (primaries: seq<ComponentInfo>)
    ensures primaries == Primaries(group)
  {
    primaries := [];
    for k := 0 to |group|
      invariant primaries == Primaries(group[..k])
    {
      assert group[..k + 1][..k] == group[..k];
      if group[k].isPrimary {
        primaries := primaries + [group[k]];
      }
    }
    assert group[..|group|] == group;
  }

  /** The names of a group, written into a slice of the group's length. */
  method CollectNames(group: seq<ComponentInfo>) returns (names: seq<string>)
    ensures names == Names(group)
  {
    var a := new string[|group|];
    for k := 0 to |group|
      invariant forall j :: 0 <= j < k ==> a[j] == group[j].name
    {
      a[k] := group[k].name;
    }
    names := a[..];
  }

  /** The fluent registration front-end: accumulates a component's settings
      until the batch commit registers it. */
  class ObjectBuilder {
    const container: Container
    const instance: Instance
    const instanceType: GoType
    var name: string
    var priority: int
    var exportedTypes: seq<GoType>
    var nameSet: bool
    var prioritySet: bool
    var isPrimary: bool

    /** The exports start with the instance's own type. */
    ghost predicate Valid()
      reads this
    {
      |exportedTypes| >= 1 && exportedTypes[0] == instanceType && instanceType == instance.typ
    }

    /** The descriptor `register` builds. */
    function Info(): (r: ComponentInfo)
      reads this
    {
      ComponentInfo(instance, instance.typ, name, priority, exportedTypes, isPrimary)
    }

    constructor (container: Container, instance: Instance)
      ensures Valid() && this.container == container && this.instance == instance
      ensures name == DefaultName(instance.typ) && priority == 0
      ensures exportedTypes == [instance.typ]
      ensures !isPrimary && !nameSet && !prioritySet
    {
      this.container := container;
      this.instance := instance;
      instanceType := instance.typ;
      name := DefaultName(instance.typ);
      priority := 0;
      exportedTypes := [instance.typ];
      nameSet := false;
      prioritySet := false;
      isPrimary := false;
    }

    method Name(name: string) returns (b: ObjectBuilder)
      modifies this`name, this`nameSet
      ensures b == this && this.name == name && nameSet
    {
      this.name := name;
      nameSet := true;
      return this;
    }

    method Priority(priority: int) returns (b: ObjectBuilder)
      modifies this`priority, this`prioritySet
      ensures b == this && this.priority == priority && prioritySet
    {
      this.priority := priority;
      prioritySet := true;
      return this;
    }

    method Export(typePtr: GoType) returns (b: ObjectBuilder)
      requires Valid()
      modifies this`exportedTypes
      ensures b == this && Valid()
      ensures exportedTypes == old(exportedTypes) + [ExportedType(typePtr)]
    {
      exportedTypes := exportedTypes + [ExportedType(typePtr)];
      return this;
    }

    method Primary() returns (b: ObjectBuilder)
      modifies this`isPrimary
      ensures b == this && isPrimary
    {
      isPrimary := true;
      return this;
    }

    /** Registers the accumulated descriptor with the builder's container. */
    method Register() returns (err: Option<Error>)
      requires container.Valid()
      modifies container`componentsByName, container`components
      ensures container.Valid()
      ensures old(name in container.componentsByName) ==>
        && err == Some(DuplicateName(name, old(container.componentsByName[name].instanceType), instance.typ))
        && container.components == old(container.components)
        && container.componentsByName == old(container.componentsByName)
      ensures old(name !in container.componentsByName) ==>
        && err == None
        && container.components == old(container.components) + [Info()]
        && container.componentsByName == old(container.componentsByName)[name := Info()]
    {
      var info := ComponentInfo(instance, instance.typ, name, priority, exportedTypes, isPrimary);
      err := container.RegisterComponent(info);
    }
  }
}
