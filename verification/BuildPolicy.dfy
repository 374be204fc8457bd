/** What the wrapper derives from the build graph before it runs the
    compiler: which modules are legacy, which build label owns each module,
    and which diagnostic types each module's owner suppresses; plus the
    run-wide suppressions named by `--suppress`.

    The library descriptors arrive in command-line order. A first pass marks
    every module of a legacy descriptor; a second pass walks the strict
    (non-legacy) descriptors in order, takes their modules out of the legacy
    set, records their label (a later descriptor overwrites an earlier one)
    and resolves their suppress codes through the diagnostic-type table. */
module BuildPolicy {
  import opened Wrappers

  /** A diagnostic type of the compiler, known by its key. */
  datatype DiagnosticType = DiagnosticType(key: string)

  /** The build-graph descriptor of one library rule. */
  datatype Descriptor = Descriptor(
    buildLabel: string,
    modules: seq<string>,
    suppress: seq<string>,      // suppress codes, as written in the rule
    legacy: bool)

  /** The registry from suppress code to diagnostic type; a code outside it is unknown. */
  type TypeTable = map<string, DiagnosticType>

  /** The derived policy. `suppressions` is a set-valued multimap: a module is a
      key only while at least one type is recorded for it. */
  datatype Policy = Policy(
    legacyModules: set<string>,
    labels: map<string, string>,
    suppressions: map<string, set<DiagnosticType>>)

  /** A strict descriptor names a suppress code the registry does not know. */
  datatype DerivationError = BadDiagnosticType(code: string)

  /** The types a multimap records for `m`; none when `m` is not a key. */
  function Lookup(sup: map<string, set<DiagnosticType>>, m: string): set<DiagnosticType> {
    if m in sup then sup[m] else {}
  }

  function SuppressionsOf(p: Policy, m: string): set<DiagnosticType> {
    Lookup(p.suppressions, m)
  }

  /** No key of the multimap maps to the empty set. */
  predicate NoEmptyEntries(sup: map<string, set<DiagnosticType>>) {
    forall m :: m in sup ==> sup[m] != {}
  }

  // ---------------------------------------------------------------------
  // Reference description, in terms of membership only
  // ---------------------------------------------------------------------

  predicate OwnsLegacy(d: Descriptor, m: string) {
    d.legacy && m in d.modules
  }

  predicate OwnsStrictly(d: Descriptor, m: string) {
    !d.legacy && m in d.modules
  }

  /** The modules some strict descriptor declares. */
  function StrictModules(infos: seq<Descriptor>): set<string> {
    set d, m | d in infos && m in d.modules && !d.legacy :: m
  }

  /** Some legacy descriptor declares `m`. */
  predicate HasLegacyOwner(infos: seq<Descriptor>, m: string) {
    exists d :: d in infos && OwnsLegacy(d, m)
  }

  /** Some strict descriptor declares `m`. */
  predicate HasStrictOwner(infos: seq<Descriptor>, m: string) {
    exists d :: d in infos && OwnsStrictly(d, m)
  }

  /** A strict descriptor the derivation rejects: it declares a module, so its
      codes are looked up, and one of its codes is unknown. A strict
      descriptor without modules never looks its codes up. */
  predicate Unresolvable(d: Descriptor, table: TypeTable) {
    !d.legacy && |d.modules| > 0 && exists c :: c in d.suppress && c !in table
  }

  /** Type `t` is suppressed for module `m` by some strict owner of `m`. */
  predicate Suppresses(infos: seq<Descriptor>, table: TypeTable, m: string, t: DiagnosticType) {
    exists d, c :: d in infos && OwnsStrictly(d, m) && c in d.suppress && c in table && table[c] == t
  }

  // ---------------------------------------------------------------------
  // The two passes
  // ---------------------------------------------------------------------

  /** The first pass: every module of every legacy descriptor. */
  function MarkLegacy(infos: seq<Descriptor>): (r: set<string>)
    ensures forall m :: m in r <==> HasLegacyOwner(infos, m)
  {
    if |infos| == 0 then {}
    else
      var front, last := infos[..|infos| - 1], infos[|infos| - 1];
      assert forall d :: d in infos <==> d in front || d == last;
      assert last in infos;
      MarkLegacy(front) + (if last.legacy then Owned(last) else {})
  }

  /** The modules a descriptor declares, as a set. */
  function Owned(d: Descriptor): set<string> {
    set m | m in d.modules
  }

  /** The first suppress code the registry does not know, if any. */
  function FirstUnknown(codes: seq<string>, table: TypeTable): (r: Option<string>)
    ensures r.None? <==> forall c :: c in codes ==> c in table
    ensures r.Some? ==> exists k :: (0 <= k < |codes| && codes[k] == r.value && r.value !in table
      && forall k' :: 0 <= k' < k ==> codes[k'] in table)
  {
    if |codes| == 0 then None
    else if codes[0] !in table then Some(codes[0])
    else
      var r := FirstUnknown(codes[1..], table);
      assert forall c :: c in codes ==> c == codes[0] || c in codes[1..];
      if r.Some? then
        var k :| 0 <= k < |codes[1..]| && codes[1..][k] == r.value && r.value !in table
          && forall k' :: 0 <= k' < k ==> codes[1..][k'] in table;
        assert codes[k + 1] == r.value;
        r
      else r
  }

  /** The types the known codes of `codes` resolve to. */
  function Resolve(codes: seq<string>, table: TypeTable): set<DiagnosticType> {
    set c | c in codes && c in table :: table[c]
  }

  /** `suppressions.put(m, t)` for every module `m` of `owned` and type `t` of `types`. */
  function PutAll(sup: map<string, set<DiagnosticType>>, owned: set<string>, types: set<DiagnosticType>)
    : (r: map<string, set<DiagnosticType>>)
    ensures forall m :: Lookup(r, m) == Lookup(sup, m) + (if m in owned then types else {})
    ensures NoEmptyEntries(sup) ==> NoEmptyEntries(r)
  {
    var keys := sup.Keys + (if types == {} then {} else owned);
    map m | m in keys :: Lookup(sup, m) + (if m in owned then types else {})
  }

  /** The second pass for one strict descriptor: its modules leave the legacy
      set, each of them gets the descriptor's label, and each of them gets the
      descriptor's resolved types. The codes are looked up once per module, so
      a descriptor without modules never fails. */
  function AddStrict(p: Policy, d: Descriptor, table: TypeTable): (r: Result<Policy, DerivationError>)
    requires !d.legacy
    ensures r.Failure? <==> Unresolvable(d, table)
    ensures r.Failure? ==> var c := FirstUnknown(d.suppress, table); c.Some? && r.error == BadDiagnosticType(c.value)
    ensures r.Success? ==> r.value.legacyModules == p.legacyModules - Owned(d)
    ensures r.Success? ==> r.value.labels.Keys == p.labels.Keys + Owned(d)
    ensures r.Success? ==> forall m :: m in r.value.labels ==>
      r.value.labels[m] == if m in d.modules then d.buildLabel else p.labels[m]
    ensures r.Success? ==> forall m :: (SuppressionsOf(r.value, m)
      == SuppressionsOf(p, m) + (if m in d.modules then Resolve(d.suppress, table) else {}))
    ensures r.Success? && NoEmptyEntries(p.suppressions) ==> NoEmptyEntries(r.value.suppressions)
  {
    var bad := FirstUnknown(d.suppress, table);
    if |d.modules| > 0 && bad.Some? then Failure(BadDiagnosticType(bad.value))
    else
      var owned := Owned(d);
      Success(Policy(
        p.legacyModules - owned,
        p.labels + map m | m in owned :: d.buildLabel,
        PutAll(p.suppressions, owned, Resolve(d.suppress, table))))
  }

  /** One step of the second pass: legacy descriptors are skipped. */
  function Visit(p: Policy, d: Descriptor, table: TypeTable): Result<Policy, DerivationError> {
    if d.legacy then Success(p) else AddStrict(p, d, table)
  }

  /** The second pass over `infos`, starting from legacy set `legacy0`; the
      first unresolvable strict descriptor aborts it. */
  function IndexStrict(infos: seq<Descriptor>, table: TypeTable, legacy0: set<string>)
    : (r: Result<Policy, DerivationError>)
    ensures r.Failure? <==> exists d :: d in infos && Unresolvable(d, table)
    ensures r.Success? ==> r.value.legacyModules == legacy0 - StrictModules(infos)
    ensures r.Success? ==> r.value.labels.Keys == StrictModules(infos)
    ensures r.Success? ==> NoEmptyEntries(r.value.suppressions)
    decreases |infos|
  {
    if |infos| == 0 then Success(Policy(legacy0, map[], map[]))
    else
      var front, last := infos[..|infos| - 1], infos[|infos| - 1];
      assert forall d :: d in infos <==> d in front || d == last;
      assert StrictModules(infos) == StrictModules(front) + (if last.legacy then {} else Owned(last));
      var r :- IndexStrict(front, table, legacy0);
      Visit(r, last, table)
  }

  /** The derivation aborts at the first unresolvable strict descriptor, with
      its first unknown code. */
  lemma {:induction false} IndexFirstError(infos: seq<Descriptor>, table: TypeTable, legacy0: set<string>, k: nat)
    requires k < |infos| && Unresolvable(infos[k], table)
    requires forall k' :: 0 <= k' < k ==> !Unresolvable(infos[k'], table)
    ensures IndexStrict(infos, table, legacy0).Failure?
    ensures IndexStrict(infos, table, legacy0).error == BadDiagnosticType(FirstUnknown(infos[k].suppress, table).value)
    decreases |infos|
  {
    var front, last := infos[..|infos| - 1], infos[|infos| - 1];
    assert infos[k] in infos;
    if k == |infos| - 1 {
      forall d | d in front
        ensures !Unresolvable(d, table)
      {
        var k' :| 0 <= k' < |front| && front[k'] == d;
        assert infos[k'] == d;
      }
      assert IndexStrict(front, table, legacy0).Success?;
    } else {
      assert front[k] == infos[k];
      assert forall k' :: 0 <= k' < k ==> front[k'] == infos[k'];
      IndexFirstError(front, table, legacy0, k);
    }
  }

  /** The suppressions recorded for a module are exactly the resolved codes of
      its strict owners. */
  lemma {:induction false} IndexSuppresses(infos: seq<Descriptor>, table: TypeTable, legacy0: set<string>)
    requires IndexStrict(infos, table, legacy0).Success?
    ensures forall m, t :: (t in SuppressionsOf(IndexStrict(infos, table, legacy0).value, m)
      <==> Suppresses(infos, table, m, t))
    decreases |infos|
  {
    if |infos| > 0 {
      var front, last := infos[..|infos| - 1], infos[|infos| - 1];
      assert forall d :: d in infos <==> d in front || d == last;
      IndexSuppresses(front, table, legacy0);
      var p := IndexStrict(front, table, legacy0).value;
      var q := IndexStrict(infos, table, legacy0).value;
      forall m, t
        ensures t in SuppressionsOf(q, m) <==> Suppresses(infos, table, m, t)
      {
        if t in SuppressionsOf(q, m) && t !in SuppressionsOf(p, m) {
          var c :| c in last.suppress && c in table && table[c] == t;
          assert OwnsStrictly(last, m);
        }
        if Suppresses(infos, table, m, t) && !Suppresses(front, table, m, t) {
          var d, c :| d in infos && OwnsStrictly(d, m) && c in d.suppress && c in table && table[c] == t;
          assert d == last;
        }
      }
    }
  }

  /** Both passes: the legacy set is the modules declared by some legacy
      descriptor and by no strict one, whatever the order, and no module is
      both legacy and labelled. */
  function Derive(infos: seq<Descriptor>, table: TypeTable): (r: Result<Policy, DerivationError>)
    ensures r.Failure? <==> exists d :: d in infos && Unresolvable(d, table)
    ensures r.Success? ==> forall m :: m in r.value.legacyModules <==>
      HasLegacyOwner(infos, m) && !HasStrictOwner(infos, m)
    ensures r.Success? ==> r.value.labels.Keys == StrictModules(infos)
    ensures r.Success? ==> r.value.legacyModules !! r.value.labels.Keys
    ensures r.Success? ==> forall m, t :: t in SuppressionsOf(r.value, m) <==> Suppresses(infos, table, m, t)
  {
    var r := IndexStrict(infos, table, MarkLegacy(infos));
    if r.Success? then
      IndexSuppresses(infos, table, MarkLegacy(infos));
      r
    else r
  }

  /** Like `HashMultimap`, the derived multimap has no key without types. */
  lemma DeriveNoEmptyEntries(infos: seq<Descriptor>, table: TypeTable)
    requires Derive(infos, table).Success?
    ensures NoEmptyEntries(Derive(infos, table).value.suppressions)
  {
  }

  /** A successful second pass is the successful pass over all but the last
      descriptor, followed by a visit of the last one. */
  lemma IndexUnfold(infos: seq<Descriptor>, table: TypeTable, legacy0: set<string>)
    requires |infos| > 0 && IndexStrict(infos, table, legacy0).Success?
    ensures IndexStrict(infos[..|infos| - 1], table, legacy0).Success?
    ensures IndexStrict(infos, table, legacy0)
         == Visit(IndexStrict(infos[..|infos| - 1], table, legacy0).value, infos[|infos| - 1], table)
  {
  }

  /** `infos[k]` is the last strict descriptor declaring `m`. */
  predicate LastStrictOwner(infos: seq<Descriptor>, m: string, k: nat) {
    && k < |infos| && OwnsStrictly(infos[k], m)
    && forall k' :: k < k' < |infos| ==> !OwnsStrictly(infos[k'], m)
  }

  /** Last writer wins: a module's label is the label of the last strict
      descriptor in command-line order that declares it. */
  lemma {:induction false} LabelIsLastStrictOwner(infos: seq<Descriptor>, table: TypeTable, legacy0: set<string>,
                                                  m: string, k: nat)
    requires IndexStrict(infos, table, legacy0).Success?
    requires LastStrictOwner(infos, m, k)
    ensures m in IndexStrict(infos, table, legacy0).value.labels
    ensures IndexStrict(infos, table, legacy0).value.labels[m] == infos[k].buildLabel
    decreases |infos|
  {
    var front, last := infos[..|infos| - 1], infos[|infos| - 1];
    IndexUnfold(infos, table, legacy0);
    var p := IndexStrict(front, table, legacy0).value;
    var q := IndexStrict(infos, table, legacy0).value;
    if k == |infos| - 1 {
      assert q.labels[m] == last.buildLabel;
    } else {
      assert !OwnsStrictly(last, m);
      assert front[k] == infos[k];
      assert LastStrictOwner(front, m, k) by {
        forall k' | k < k' < |front|
          ensures !OwnsStrictly(front[k'], m)
        {
          assert front[k'] == infos[k'];
        }
      }
      LabelIsLastStrictOwner(front, table, legacy0, m, k);
      assert q.labels[m] == p.labels[m];
    }
  }

  /** A strictly declared module has a last strict declaration. */
  lemma {:induction false} SomeLastStrictOwner(infos: seq<Descriptor>, m: string)
    requires HasStrictOwner(infos, m)
    ensures exists k: nat :: LastStrictOwner(infos, m, k)
    decreases |infos|
  {
    var front, last := infos[..|infos| - 1], infos[|infos| - 1];
    if OwnsStrictly(last, m) {
      assert LastStrictOwner(infos, m, |infos| - 1);
    } else {
      var d :| d in infos && OwnsStrictly(d, m);
      assert d in front by {
        var i :| 0 <= i < |infos| && infos[i] == d;
        assert i < |infos| - 1 && front[i] == d;
      }
      SomeLastStrictOwner(front, m);
      var k: nat :| LastStrictOwner(front, m, k);
      LastOwnerSurvives(infos, m, k);
    }
  }

  lemma LastOwnerSurvives(infos: seq<Descriptor>, m: string, k: nat)
    requires |infos| > 0 && LastStrictOwner(infos[..|infos| - 1], m, k)
    requires !OwnsStrictly(infos[|infos| - 1], m)
    ensures LastStrictOwner(infos, m, k)
  {
    var front := infos[..|infos| - 1];
    assert infos[k] == front[k];
    forall k' | k < k' < |infos|
      ensures !OwnsStrictly(infos[k'], m)
    {
      if k' < |infos| - 1 {
        assert infos[k'] == front[k'];
      }
    }
  }

  /** Last writer wins for the whole derivation: the label of a module is the
      label of the last strict descriptor that declares it. */
  lemma LabelOfLastWriter(infos: seq<Descriptor>, table: TypeTable, m: string, k: nat)
    requires Derive(infos, table).Success?
    requires LastStrictOwner(infos, m, k)
    ensures m in Derive(infos, table).value.labels
    ensures Derive(infos, table).value.labels[m] == infos[k].buildLabel
  {
    LabelIsLastStrictOwner(infos, table, MarkLegacy(infos), m, k);
  }

  /** The whole label map at once: every module's label is that of its last
      strict declaration. */
  lemma DeriveLabels(infos: seq<Descriptor>, table: TypeTable)
    requires Derive(infos, table).Success?
    ensures forall m, k: nat :: LastStrictOwner(infos, m, k) ==>
      m in Derive(infos, table).value.labels && Derive(infos, table).value.labels[m] == infos[k].buildLabel
  {
    forall m, k: nat | LastStrictOwner(infos, m, k)
      ensures m in Derive(infos, table).value.labels
      ensures Derive(infos, table).value.labels[m] == infos[k].buildLabel
    {
      LabelOfLastWriter(infos, table, m, k);
    }
  }

  /** With a unique strict owner, as the build graph normally guarantees, a
      module's label is that owner's label. */
  lemma UniqueOwnerLabel(infos: seq<Descriptor>, table: TypeTable, d: Descriptor, m: string)
    requires Derive(infos, table).Success?
    requires d in infos && OwnsStrictly(d, m)
    requires forall d' :: d' in infos && OwnsStrictly(d', m) ==> d' == d
    ensures m in Derive(infos, table).value.labels
    ensures Derive(infos, table).value.labels[m] == d.buildLabel
  {
    SomeLastStrictOwner(infos, m);
    var k: nat :| LastStrictOwner(infos, m, k);
    assert infos[k] in infos;
    LabelOfLastWriter(infos, table, m, k);
  }

  /** Two multimaps without empty entries that record the same types for
      every module are the same map. */
  lemma SameLookupsSameMap(x: map<string, set<DiagnosticType>>, y: map<string, set<DiagnosticType>>)
    requires NoEmptyEntries(x) && NoEmptyEntries(y)
    requires forall m, t :: t in Lookup(x, m) <==> t in Lookup(y, m)
    ensures x == y
  {
    forall m | true
      ensures Lookup(x, m) == Lookup(y, m)
    {
      assert forall t :: t in Lookup(x, m) <==> t in Lookup(y, m);
    }
    assert x.Keys == y.Keys by {
      forall m | m in x
        ensures m in y
      {
        assert Lookup(x, m) != {};
      }
      forall m | m in y
        ensures m in x
      {
        assert Lookup(y, m) != {};
      }
    }
    assert forall m :: m in x ==> x[m] == Lookup(x, m) == Lookup(y, m) == y[m];
  }

  /** The derivation does not depend on the order of the descriptors: whether
      it fails, the legacy set, the labelled modules and every module's
      suppressions are the same for any permutation. Only which label a module
      with several strict owners gets, and which unknown code is reported,
      depend on the order. */
  lemma DeriveIgnoresOrder(a: seq<Descriptor>, b: seq<Descriptor>, table: TypeTable)
    requires multiset(a) == multiset(b)
    ensures Derive(a, table).Success? <==> Derive(b, table).Success?
    ensures Derive(a, table).Success? ==>
      && Derive(a, table).value.legacyModules == Derive(b, table).value.legacyModules
      && Derive(a, table).value.labels.Keys == Derive(b, table).value.labels.Keys
      && Derive(a, table).value.suppressions == Derive(b, table).value.suppressions
  {
    assert forall d :: d in a <==> d in multiset(a);
    assert forall d :: d in b <==> d in multiset(b);
    SameMembersSamePolicy(a, b, table);
  }

  ghost predicate SameMembers(a: seq<Descriptor>, b: seq<Descriptor>) {
    forall d :: d in a <==> d in b
  }

  lemma SameMembersSameFacts(a: seq<Descriptor>, b: seq<Descriptor>, table: TypeTable)
    requires SameMembers(a, b)
    ensures (exists d :: d in a && Unresolvable(d, table)) <==> (exists d :: d in b && Unresolvable(d, table))
    ensures forall m :: HasLegacyOwner(a, m) <==> HasLegacyOwner(b, m)
    ensures forall m :: HasStrictOwner(a, m) <==> HasStrictOwner(b, m)
    ensures StrictModules(a) == StrictModules(b)
    ensures forall m, t :: Suppresses(a, table, m, t) <==> Suppresses(b, table, m, t)
  {
  }

  lemma SameMembersSamePolicy(a: seq<Descriptor>, b: seq<Descriptor>, table: TypeTable)
    requires SameMembers(a, b)
    ensures Derive(a, table).Success? <==> Derive(b, table).Success?
    ensures Derive(a, table).Success? ==>
      && Derive(a, table).value.legacyModules == Derive(b, table).value.legacyModules
      && Derive(a, table).value.labels.Keys == Derive(b, table).value.labels.Keys
      && Derive(a, table).value.suppressions == Derive(b, table).value.suppressions
  {
    SameMembersSameFacts(a, b, table);
    var ra, rb := Derive(a, table), Derive(b, table);
    if ra.Success? {
      var p, q := ra.value, rb.value;
      assert p.legacyModules == q.legacyModules by {
        assert forall m :: m in p.legacyModules <==> m in q.legacyModules;
      }
      forall m, t
        ensures t in Lookup(p.suppressions, m) <==> t in Lookup(q.suppressions, m)
      {
        assert t in SuppressionsOf(p, m) <==> Suppresses(a, table, m, t);
        assert t in SuppressionsOf(q, m) <==> Suppresses(b, table, m, t);
      }
      DeriveNoEmptyEntries(a, table);
      DeriveNoEmptyEntries(b, table);
      SameLookupsSameMap(p.suppressions, q.suppressions);
    }
  }

  /** The run-wide suppressions: every type any `--suppress` code stands for,
      added code by code as the scan meets them. */
  function GlobalSuppressions(codes: seq<string>, typesFor: string -> set<DiagnosticType>)
    : (r: set<DiagnosticType>)
    ensures forall t :: t in r <==> exists c :: c in codes && t in typesFor(c)
  {
    if |codes| == 0 then {}
    else
      var front, last := codes[..|codes| - 1], codes[|codes| - 1];
      assert forall c :: c in codes <==> c in front || c == last;
      GlobalSuppressions(front, typesFor) + typesFor(last)
  }
}
