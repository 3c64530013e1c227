/** The capability resolver: which registered component answers for an
    exported type. Components are grouped by every type they export; a group
    of one provider takes that provider, a larger group takes its single
    primary member, and any other group is an error. */
module Resolution {
  import opened Model

  /** How many times `t` occurs in `ts`. */
  function Count(ts: seq<GoType>, t: GoType): (r: nat) {
    if ts == [] then 0 else Count(ts[..|ts| - 1], t) + (if ts[|ts| - 1] == t then 1 else 0)
  }

  lemma {:induction false} CountPositive(ts: seq<GoType>, t: GoType)
    ensures Count(ts, t) > 0 <==> t in ts
  {
    if ts != [] {
      CountPositive(ts[..|ts| - 1], t);
      assert ts == ts[..|ts| - 1] + [ts[|ts| - 1]];
    }
  }

  /** `k` copies of the descriptor `c`. */
  function Repeat(c: ComponentInfo, k: nat): (r: seq<ComponentInfo>)
    ensures |r| == k && forall i :: 0 <= i < k ==> r[i] == c
  {
    seq(k, _ => c)
  }

  /** The providers collected for `t`: registration order, one entry every
      time a component lists `t` among its exported types. */
  function Group(cs: seq<ComponentInfo>, t: GoType): (r: seq<ComponentInfo>) {
    if cs == [] then []
    else Group(cs[..|cs| - 1], t) + Repeat(cs[|cs| - 1], Count(cs[|cs| - 1].exportedTypes, t))
  }

  /** The primary members of a group, in order. */
  function Primaries(g: seq<ComponentInfo>): (r: seq<ComponentInfo>) {
    if g == [] then []
    else Primaries(g[..|g| - 1]) + (if g[|g| - 1].isPrimary then [g[|g| - 1]] else [])
  }

  /** The names of a group, position by position. */
  function Names(g: seq<ComponentInfo>): (r: seq<string>)
    ensures |r| == |g| && forall i :: 0 <= i < |g| ==> r[i] == g[i].name
  {
    seq(|g|, i requires 0 <= i < |g| => g[i].name)
  }

  /** The decision for one type's group. */
  function Select(t: GoType, g: seq<ComponentInfo>): (r: Result<ComponentInfo>) {
    if |g| == 1 then Ok(g[0])
    else
      var ps := Primaries(g);
      if |ps| == 0 then Err(Ambiguous(t, Names(g)))
      else if |ps| > 1 then Err(MultiplePrimary(t, Names(ps)))
      else Ok(ps[0])
  }

  /** The decision for `t` over a list of registered components. */
  function ResolveType(cs: seq<ComponentInfo>, t: GoType): (r: Result<ComponentInfo>) {
    Select(t, Group(cs, t))
  }

  /** Every type some component exports. */
  function Exported(cs: seq<ComponentInfo>): (r: set<GoType>) {
    set i, t | 0 <= i < |cs| && t in cs[i].exportedTypes :: t
  }

  /** Resolution succeeds for every exported type. */
  ghost predicate Resolvable(cs: seq<ComponentInfo>) {
    forall t :: t in Exported(cs) ==> ResolveType(cs, t).Ok?
  }

  /** The type index a successful resolution builds. */
  function ResolvedIndex(cs: seq<ComponentInfo>): (r: map<GoType, ComponentInfo>) {
    map t | t in Exported(cs) && ResolveType(cs, t).Ok? :: ResolveType(cs, t).value
  }

  /** A type index that decides every exported type as resolution does is
      the resolved index, and then resolution succeeds everywhere. */
  lemma ResolvedIndexUnique(cs: seq<ComponentInfo>, index: map<GoType, ComponentInfo>)
    requires index.Keys == Exported(cs)
    requires forall t :: t in index ==> ResolveType(cs, t) == Ok(index[t])
    ensures Resolvable(cs) && index == ResolvedIndex(cs)
  {
  }

  /** One exported type that cannot be decided makes the components unresolvable. */
  lemma UnresolvableAt(cs: seq<ComponentInfo>, t: GoType)
    requires t in Exported(cs) && ResolveType(cs, t).Err?
    ensures !Resolvable(cs)
  {
  }

  // ----- Facts about groups -----

  lemma {:induction false} GroupMember(cs: seq<ComponentInfo>, t: GoType, c: ComponentInfo)
    ensures c in Group(cs, t) <==> exists i :: 0 <= i < |cs| && cs[i] == c && t in c.exportedTypes
  {
    if cs != [] {
      var n := |cs| - 1;
      var p := cs[..n];
      GroupMember(p, t, c);
      CountPositive(cs[n].exportedTypes, t);
      if c in Group(cs, t) {
        if c in Group(p, t) {
          var i :| 0 <= i < |p| && p[i] == c && t in c.exportedTypes;
          assert cs[i] == c;
        } else {
          assert c in Repeat(cs[n], Count(cs[n].exportedTypes, t));
          assert cs[n] == c;
        }
      }
      if exists i :: 0 <= i < |cs| && cs[i] == c && t in c.exportedTypes {
        var i :| 0 <= i < |cs| && cs[i] == c && t in c.exportedTypes;
        if i < n {
          assert p[i] == c;
        } else {
          assert Repeat(cs[n], Count(cs[n].exportedTypes, t))[0] == c;
        }
      }
    }
  }

  /** A group is empty exactly when no component exports the type. */
  lemma GroupEmpty(cs: seq<ComponentInfo>, t: GoType)
    ensures Group(cs, t) == [] <==> t !in Exported(cs)
  {
    if Group(cs, t) != [] {
      GroupMember(cs, t, Group(cs, t)[0]);
    }
    if t in Exported(cs) {
      var i :| 0 <= i < |cs| && t in cs[i].exportedTypes;
      GroupMember(cs, t, cs[i]);
    }
  }

  /** A type nobody exports has an empty group. */
  lemma {:induction false} GroupNoExporter(cs: seq<ComponentInfo>, t: GoType)
    requires forall j :: 0 <= j < |cs| ==> t !in cs[j].exportedTypes
    ensures Group(cs, t) == []
  {
    if cs != [] {
      var n := |cs| - 1;
      GroupNoExporter(cs[..n], t);
      CountPositive(cs[n].exportedTypes, t);
    }
  }

  /** When only `cs[i]` exports `t`, the group is `cs[i]` once per occurrence. */
  lemma {:induction false} GroupOfSole(cs: seq<ComponentInfo>, i: nat, t: GoType)
    requires i < |cs|
    requires forall j :: 0 <= j < |cs| && j != i ==> t !in cs[j].exportedTypes
    ensures Group(cs, t) == Repeat(cs[i], Count(cs[i].exportedTypes, t))
  {
    var n := |cs| - 1;
    var p := cs[..n];
    if i == n {
      GroupNoExporter(p, t);
    } else {
      GroupOfSole(p, i, t);
      CountPositive(cs[n].exportedTypes, t);
    }
  }

  lemma {:induction false} PrimariesAppend(a: seq<ComponentInfo>, b: seq<ComponentInfo>)
    ensures Primaries(a + b) == Primaries(a) + Primaries(b)
  {
    if b != [] {
      var m := |b| - 1;
      assert (a + b)[..|a + b| - 1] == a + b[..m];
      PrimariesAppend(a, b[..m]);
    } else {
      assert a + b == a;
    }
  }

  lemma {:induction false} PrimariesRepeat(c: ComponentInfo, k: nat)
    ensures Primaries(Repeat(c, k)) == if c.isPrimary then Repeat(c, k) else []
  {
    if k > 0 {
      assert Repeat(c, k)[..k - 1] == Repeat(c, k - 1);
      PrimariesRepeat(c, k - 1);
      assert Repeat(c, k) == Repeat(c, k - 1) + [c];
    }
  }

  lemma {:induction false} PrimariesMember(g: seq<ComponentInfo>, c: ComponentInfo)
    ensures c in Primaries(g) <==> c in g && c.isPrimary
  {
    if g != [] {
      var m := |g| - 1;
      PrimariesMember(g[..m], c);
      assert g == g[..m] + [g[m]];
    }
  }

  lemma {:induction false} PrimariesNone(g: seq<ComponentInfo>)
    requires forall c :: c in g ==> !c.isPrimary
    ensures Primaries(g) == []
  {
    if g != [] {
      PrimariesNone(g[..|g| - 1]);
      assert g[|g| - 1] in g;
    }
  }

  /** The primary entries of a group come from the primary exporters only:
      with `cs[i]` the one primary exporter, listing `t` once, they are `[cs[i]]`. */
  lemma {:induction false} PrimaryGroupOfUnique(cs: seq<ComponentInfo>, i: nat, t: GoType)
    requires i < |cs| && cs[i].isPrimary && Count(cs[i].exportedTypes, t) == 1
    requires forall j :: 0 <= j < |cs| && j != i && t in cs[j].exportedTypes ==> !cs[j].isPrimary
    ensures Primaries(Group(cs, t)) == [cs[i]]
  {
    var n := |cs| - 1;
    var p := cs[..n];
    var last := Repeat(cs[n], Count(cs[n].exportedTypes, t));
    PrimariesAppend(Group(p, t), last);
    PrimariesRepeat(cs[n], Count(cs[n].exportedTypes, t));
    if i == n {
      forall c | c in Group(p, t) ensures !c.isPrimary {
        GroupMember(p, t, c);
        var j :| 0 <= j < |p| && p[j] == c && t in c.exportedTypes;
        assert cs[j] == p[j];
      }
      PrimariesNone(Group(p, t));
      assert last == [cs[n]];
    } else {
      PrimaryGroupOfUnique(p, i, t);
      CountPositive(cs[n].exportedTypes, t);
    }
  }

  // ----- The resolution rules -----

  /** A type with a single provider takes it, primary or not. */
  lemma SoleExporterSelected(cs: seq<ComponentInfo>, i: nat, t: GoType)
    requires i < |cs| && Count(cs[i].exportedTypes, t) == 1
    requires forall j :: 0 <= j < |cs| && j != i ==> t !in cs[j].exportedTypes
    ensures ResolveType(cs, t) == Ok(cs[i])
  {
    GroupOfSole(cs, i, t);
    assert Group(cs, t) == [cs[i]];
  }

  /** A type whose several providers hold exactly one primary takes the
      primary; a single provider that is primary is taken as well. */
  lemma UniquePrimarySelected(cs: seq<ComponentInfo>, i: nat, t: GoType)
    requires i < |cs| && cs[i].isPrimary && Count(cs[i].exportedTypes, t) == 1
    requires forall j :: 0 <= j < |cs| && j != i && t in cs[j].exportedTypes ==> !cs[j].isPrimary
    ensures ResolveType(cs, t) == Ok(cs[i])
  {
    PrimaryGroupOfUnique(cs, i, t);
    CountPositive(cs[i].exportedTypes, t);
    GroupMember(cs, t, cs[i]);
    var g := Group(cs, t);
    if |g| == 1 {
      assert g[0] == cs[i];
    }
  }

  /** Two providers of `t`, none of them primary: an ambiguity error that lists
      the names of exactly the providers of `t`. */
  lemma NoPrimaryAmbiguous(cs: seq<ComponentInfo>, t: GoType, i: nat, j: nat)
    requires i < |cs| && j < |cs| && cs[i].name != cs[j].name
    requires t in cs[i].exportedTypes && t in cs[j].exportedTypes
    requires forall k :: 0 <= k < |cs| && t in cs[k].exportedTypes ==> !cs[k].isPrimary
    ensures ResolveType(cs, t) == Err(Ambiguous(t, Names(Group(cs, t))))
    ensures forall n :: n in Names(Group(cs, t)) <==>
      exists k :: 0 <= k < |cs| && cs[k].name == n && t in cs[k].exportedTypes
  {
    var g := Group(cs, t);
    GroupMember(cs, t, cs[i]);
    GroupMember(cs, t, cs[j]);
    var a :| 0 <= a < |g| && g[a] == cs[i];
    var b :| 0 <= b < |g| && g[b] == cs[j];
    assert a != b;
    forall c | c in g ensures !c.isPrimary {
      GroupMember(cs, t, c);
    }
    PrimariesNone(g);
    forall n ensures n in Names(g) <==> exists k :: 0 <= k < |cs| && cs[k].name == n && t in cs[k].exportedTypes {
      if n in Names(g) {
        var m :| 0 <= m < |g| && Names(g)[m] == n;
        GroupMember(cs, t, g[m]);
      }
      if exists k :: 0 <= k < |cs| && cs[k].name == n && t in cs[k].exportedTypes {
        var k :| 0 <= k < |cs| && cs[k].name == n && t in cs[k].exportedTypes;
        GroupMember(cs, t, cs[k]);
        var m :| 0 <= m < |g| && g[m] == cs[k];
        assert Names(g)[m] == n;
      }
    }
  }

  /** Two primary providers of `t`: a conflict error naming both of them and
      naming primary providers of `t` only. */
  lemma SeveralPrimariesConflict(cs: seq<ComponentInfo>, t: GoType, i: nat, j: nat)
    requires i < |cs| && j < |cs| && cs[i].name != cs[j].name
    requires t in cs[i].exportedTypes && t in cs[j].exportedTypes
    requires cs[i].isPrimary && cs[j].isPrimary
    ensures ResolveType(cs, t) == Err(MultiplePrimary(t, Names(Primaries(Group(cs, t)))))
    ensures cs[i].name in Names(Primaries(Group(cs, t)))
    ensures cs[j].name in Names(Primaries(Group(cs, t)))
    ensures forall n :: n in Names(Primaries(Group(cs, t))) ==>
      exists k :: 0 <= k < |cs| && cs[k].name == n && t in cs[k].exportedTypes && cs[k].isPrimary
  {
    var g := Group(cs, t);
    var ps := Primaries(g);
    GroupMember(cs, t, cs[i]);
    GroupMember(cs, t, cs[j]);
    PrimariesMember(g, cs[i]);
    PrimariesMember(g, cs[j]);
    var a :| 0 <= a < |ps| && ps[a] == cs[i];
    var b :| 0 <= b < |ps| && ps[b] == cs[j];
    assert Names(ps)[a] == cs[i].name && Names(ps)[b] == cs[j].name;
    assert a != b;
    var x :| 0 <= x < |g| && g[x] == cs[i];
    var y :| 0 <= y < |g| && g[y] == cs[j];
    assert x != y;
    forall n | n in Names(ps)
      ensures exists k :: 0 <= k < |cs| && cs[k].name == n && t in cs[k].exportedTypes && cs[k].isPrimary
    {
      var m :| 0 <= m < |ps| && Names(ps)[m] == n;
      PrimariesMember(g, ps[m]);
      GroupMember(cs, t, ps[m]);
    }
  }

  /** As written, a component that lists the same type twice competes with
      itself: the group holds it twice, so it is reported as ambiguous (or as
      two primaries) even though it is the only provider. */
  lemma DuplicateExportSelfConflict(cs: seq<ComponentInfo>, i: nat, t: GoType)
    requires i < |cs| && Count(cs[i].exportedTypes, t) == 2
    requires forall j :: 0 <= j < |cs| && j != i ==> t !in cs[j].exportedTypes
    ensures ResolveType(cs, t) == if cs[i].isPrimary
      then Err(MultiplePrimary(t, [cs[i].name, cs[i].name]))
      else Err(Ambiguous(t, [cs[i].name, cs[i].name]))
  {
    GroupOfSole(cs, i, t);
    PrimariesRepeat(cs[i], 2);
    assert Group(cs, t) == Repeat(cs[i], 2) == [cs[i], cs[i]];
    assert Names([cs[i], cs[i]]) == [cs[i].name, cs[i].name];
  }

  /** Whatever resolution selects for `t` is a registered exporter of `t`, and
      it is primary whenever it had competitors. */
  lemma SelectedIsExporter(cs: seq<ComponentInfo>, t: GoType)
    requires ResolveType(cs, t).Ok?
    ensures exists k :: 0 <= k < |cs| && cs[k] == ResolveType(cs, t).value
    ensures t in ResolveType(cs, t).value.exportedTypes
    ensures |Group(cs, t)| != 1 ==> ResolveType(cs, t).value.isPrimary
  {
    var g := Group(cs, t);
    var c := ResolveType(cs, t).value;
    if |g| != 1 {
      PrimariesMember(g, c);
    }
    GroupMember(cs, t, c);
  }
}
