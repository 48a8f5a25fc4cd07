/**
 * The policy whose canonical text is fingerprinted (src/mcp/opaqueHandles.ts):
 * it does not depend on the order in which the configuration lists things.
 */
module ScopePolicy {
  import opened Utf16
  import opened CanonicalPolicy

  datatype Option<+T> = None | Some(value: T)

  datatype Attr = Attr(ns: Text, name: Text)

  /** One semantic attribute; its operators stand between the other members. */
  datatype SemanticAttribute = SemanticAttribute(
    name: Text, before: seq<Member>, operators: seq<Text>, after: seq<Member>)

  datatype Search = NoSearch | Search(fullTextModes: Option<seq<Text>>)

  datatype Scope = Scope(
    serviceDn: Value,
    cabinetId: Text,
    rootObjectId: Value,
    resolveReferences: bool,
    objectTypes: seq<Text>,
    attrs: seq<Attr>,
    semanticAttributes: seq<SemanticAttribute>,
    contentLabels: Value,
    relationships: Value,
    integrity: Value,
    search: Search)

  datatype Context = Context(
    bindingSchemaVersion: Value,
    contractGeneration: Value,
    credentialContextGeneration: Value,
    operation: Text,
    kind: Text,
    clientProfileId: Text,
    tokenSha256: Text,
    scopes: seq<Text>,
    tools: seq<Text>,
    requiredContract: Option<Text>,
    scopeId: Text,
    scope: Scope)

  function Ascii(s: string): (t: Text)
    ensures |t| == |s|
  {
    seq(|s|, i requires 0 <= i < |s| => (s[i] as int % 0x1_0000) as Unit)
  }

  /** Code unit order, in which strings are sorted by default. */
  predicate UnitLeq(a: Text, b: Text) {
    a == [] || (b != [] && (a[0] < b[0] || (a[0] == b[0] && UnitLeq(a[1..], b[1..]))))
  }

  function ByUnits(): Collation { (a: Text, b: Text) => UnitLeq(a, b) }

  /** The text by which attribute identifiers are collated. */
  function AttrKey(a: Attr): Text { a.ns + [0] + a.name }

  function ByAttrKey(leq: Collation): (Attr, Attr) -> bool { (a: Attr, b: Attr) => leq(AttrKey(a), AttrKey(b)) }

  function Strings(s: seq<Text>): Value { Arr(seq(|s|, i requires 0 <= i < |s| => Str(s[i]))) }

  function SortedStrings(s: seq<Text>): Value { Strings(Sorted(ByUnits(), s)) }

  function AttrValue(a: Attr): Value { Obj([Member(Ascii("ns"), Str(a.ns)), Member(Ascii("name"), Str(a.name))]) }

  function Attrs(s: seq<Attr>): Value { Arr(seq(|s|, i requires 0 <= i < |s| => AttrValue(s[i]))) }

  function AttributeMember(a: SemanticAttribute): Member {
    Member(a.name, Obj(a.before + [Member(Ascii("operators"), SortedStrings(a.operators))] + a.after))
  }

  function SearchValue(s: Search): Value {
    match s
    case NoSearch => Undefined
    case Search(None) => Obj([])
    case Search(Some(modes)) => Obj([Member(Ascii("full_text_modes"), SortedStrings(modes))])
  }

  function ArcSuiteValue(s: Scope): Value {
    Obj([Member(Ascii("service_dn"), s.serviceDn),
         Member(Ascii("cabinet_id"), Str(s.cabinetId)),
         Member(Ascii("root_object_id"), s.rootObjectId),
         Member(Ascii("resolve_references"), Bool(s.resolveReferences))])
  }

  function AttributesValue(s: seq<SemanticAttribute>): Value {
    Obj(seq(|s|, i requires 0 <= i < |s| => AttributeMember(s[i])))
  }

  function ScopeMembers(leq: Collation, s: Scope): seq<Member> {
    [Member(Ascii("arcsuite"), ArcSuiteValue(s)),
     Member(Ascii("allowed_object_types"), SortedStrings(s.objectTypes)),
     Member(Ascii("default_attr_ids"), Attrs(Sorted(ByAttrKey(leq), s.attrs))),
     Member(Ascii("semantic_attributes"), AttributesValue(s.semanticAttributes)),
     Member(Ascii("content_labels"), s.contentLabels),
     Member(Ascii("relationships"), s.relationships),
     Member(Ascii("integrity"), s.integrity),
     Member(Ascii("search"), SearchValue(s.search))]
  }

  function PolicyMembers(leq: Collation, c: Context): seq<Member> {
    [Member(Ascii("binding_schema_version"), c.bindingSchemaVersion),
     Member(Ascii("contract_generation"), c.contractGeneration),
     Member(Ascii("credential_context_generation"), c.credentialContextGeneration),
     Member(Ascii("permitted_operation"), Str(c.operation)),
     Member(Ascii("handle_kind"), Str(c.kind)),
     Member(Ascii("client_profile_id"), Str(c.clientProfileId)),
     Member(Ascii("token_sha256"), Str(c.tokenSha256)),
     Member(Ascii("allowed_scopes"), SortedStrings(c.scopes)),
     Member(Ascii("allowed_tools"), SortedStrings(c.tools)),
     Member(Ascii("required_search_response_contract"),
            if c.requiredContract.None? then Null else Str(c.requiredContract.value)),
     Member(Ascii("selected_scope_id"), Str(c.scopeId)),
     Member(Ascii("selected_scope_policy"), Obj(ScopeMembers(leq, c.scope)))]
  }

  function PolicyText(leq: Collation, c: Context): Result<Text> { Canonical(leq, Obj(PolicyMembers(leq, c))) }

  // ----- Listings -----

  ghost predicate SameListing<T>(s: seq<T>, t: seq<T>) { multiset(s) == multiset(t) }

  ghost predicate SameSearch(s: Search, t: Search) {
    if s.Search? && s.fullTextModes.Some? && t.Search? && t.fullTextModes.Some?
    then SameListing(s.fullTextModes.value, t.fullTextModes.value)
    else s == t
  }

  ghost predicate SameAttribute(a: SemanticAttribute, b: SemanticAttribute) {
    a.name == b.name && a.before == b.before && a.after == b.after && SameListing(a.operators, b.operators)
  }

  /** Two contexts that differ in the order of their listings alone. */
  ghost predicate Relisted(c: Context, d: Context) {
    var s, t := c.scope, d.scope;
    && d == c.(scopes := d.scopes, tools := d.tools, scope := t)
    && t == s.(objectTypes := t.objectTypes, attrs := t.attrs,
               semanticAttributes := t.semanticAttributes, search := t.search)
    && SameListing(c.scopes, d.scopes) && SameListing(c.tools, d.tools)
    && SameListing(s.objectTypes, t.objectTypes) && SameListing(s.attrs, t.attrs)
    && SameSearch(s.search, t.search)
    && |s.semanticAttributes| == |t.semanticAttributes|
    && forall i :: 0 <= i < |s.semanticAttributes| ==> SameAttribute(s.semanticAttributes[i], t.semanticAttributes[i])
  }

  lemma {:induction false} UnitLeqTotal(a: Text, b: Text)
    ensures UnitLeq(a, b) || UnitLeq(b, a)
    ensures UnitLeq(a, b) && UnitLeq(b, a) ==> a == b
  {
    if a != [] && b != [] && a[0] == b[0] {
      UnitLeqTotal(a[1..], b[1..]);
      assert a == [a[0]] + a[1..] && b == [b[0]] + b[1..];
    }
  }

  lemma {:induction false} UnitLeqTransitive(a: Text, b: Text, c: Text)
    requires UnitLeq(a, b) && UnitLeq(b, c)
    ensures UnitLeq(a, c)
  {
    if a != [] && a[0] == b[0] && b[0] == c[0] { UnitLeqTransitive(a[1..], b[1..], c[1..]); }
  }

  lemma UnitsPreorder()
    ensures Preorder(ByUnits())
  {
    var order := ByUnits();
    forall a, b ensures order(a, b) || order(b, a) { UnitLeqTotal(a, b); }
    forall a, b, c | order(a, b) && order(b, c) ensures order(a, c) { UnitLeqTransitive(a, b, c); }
  }

  lemma UnitsUntied(s: seq<Text>)
    ensures Untied(ByUnits(), s)
  {
    forall i, j | 0 <= i < |s| && 0 <= j < |s| && ByUnits()(s[i], s[j]) && ByUnits()(s[j], s[i]) ensures s[i] == s[j] {
      UnitLeqTotal(s[i], s[j]);
    }
  }

  lemma StringsSortAlike(s: seq<Text>, t: seq<Text>)
    requires SameListing(s, t)
    ensures SortedStrings(s) == SortedStrings(t)
  {
    UnitsPreorder();
    UnitsUntied(s);
    hide Preorder, Untied;
    RelistedSortsAlike(ByUnits(), s, t);
  }

  lemma PreorderByAttrKey(leq: Collation)
    requires Preorder(leq)
    ensures Preorder(ByAttrKey(leq))
  {
    var order := ByAttrKey(leq);
    forall a, b ensures order(a, b) || order(b, a) {
      assert leq(AttrKey(a), AttrKey(b)) || leq(AttrKey(b), AttrKey(a));
    }
    forall a, b, c | order(a, b) && order(b, c) ensures order(a, c) {
      assert leq(AttrKey(a), AttrKey(b)) && leq(AttrKey(b), AttrKey(c));
    }
  }

  lemma AttributesSortAlike(s: seq<SemanticAttribute>, t: seq<SemanticAttribute>)
    requires |s| == |t| && forall i :: 0 <= i < |s| ==> SameAttribute(s[i], t[i])
    ensures AttributesValue(s) == AttributesValue(t)
  {
    hide SortedStrings, Ascii;
    forall i | 0 <= i < |s| ensures AttributeMember(s[i]) == AttributeMember(t[i]) {
      StringsSortAlike(s[i].operators, t[i].operators);
    }
  }

  lemma RelistedSamePolicy(leq: Collation, c: Context, d: Context)
    requires Preorder(leq) && Relisted(c, d) && Untied(ByAttrKey(leq), c.scope.attrs)
    ensures PolicyMembers(leq, d) == PolicyMembers(leq, c)
  {
    hide Preorder, Untied, SortedStrings, AttributesValue, ByAttrKey, Ascii, Sorted;
    StringsSortAlike(c.scopes, d.scopes);
    StringsSortAlike(c.tools, d.tools);
    StringsSortAlike(c.scope.objectTypes, d.scope.objectTypes);
    PreorderByAttrKey(leq);
    RelistedSortsAlike(ByAttrKey(leq), c.scope.attrs, d.scope.attrs);
    AttributesSortAlike(c.scope.semanticAttributes, d.scope.semanticAttributes);
    var s, t := c.scope.search, d.scope.search;
    if s.Search? && s.fullTextModes.Some? && t.Search? && t.fullTextModes.Some? {
      StringsSortAlike(s.fullTextModes.value, t.fullTextModes.value);
    }
  }

  // ----- What the text tells apart -----

  /** Keys told apart by their length or their first unit. */
  predicate Unlike(k: Text, l: Text) { |k| != |l| || (k != [] && l != [] && k[0] != l[0]) }

  /** The member of that key is the same one in both objects. */
  lemma SameAt(v: Value, w: Value, i: nat)
    requires v.Obj? && w.Obj? && Same(v, w) && |v.members| == |w.members| && i < |v.members|
    requires v.members[i].key == w.members[i].key
    requires forall j :: 0 <= j < |w.members| && j != i ==> Unlike(v.members[j].key, v.members[i].key)
    requires forall j :: 0 <= j < |w.members| && j != i ==> Unlike(w.members[j].key, v.members[i].key)
    ensures Same(v.members[i].value, w.members[i].value)
  {
    if v.members[i].value.Undefined? {
      assert forall j :: 0 <= j < |v.members| && v.members[j].key == w.members[i].key ==> j == i;
      assert w.members[i].value.Undefined?;
    } else {
      var j :| 0 <= j < |w.members|
        && w.members[j].key == v.members[i].key && Same(v.members[i].value, w.members[j].value);
    }
  }

  /** The shape of a key: its length and its first character. */
  datatype Shape = Shape(length: nat, first: char)

  predicate Keyed(members: seq<Member>, shapes: seq<Shape>) {
    |members| == |shapes| && forall i :: 0 <= i < |shapes| ==>
      |members[i].key| == shapes[i].length >= 1 && members[i].key[0] as int == shapes[i].first as int % 0x1_0000
  }

  predicate Plain(shapes: seq<Shape>) {
    && (forall i :: 0 <= i < |shapes| ==> shapes[i].first < '\U{80}')
    && (forall i, j :: 0 <= i < j < |shapes| ==> shapes[i] != shapes[j])
  }

  /** Members whose keys have pairwise different shapes correspond by position. */
  lemma SameByShape(v: Value, w: Value, shapes: seq<Shape>)
    requires v.Obj? && w.Obj? && Same(v, w) && Keyed(v.members, shapes) && Keyed(w.members, shapes) && Plain(shapes)
    requires forall i :: 0 <= i < |shapes| ==> v.members[i].key == w.members[i].key
    ensures forall i :: 0 <= i < |shapes| ==> Same(v.members[i].value, w.members[i].value)
  {
    hide Same;
    forall i | 0 <= i < |shapes| ensures Same(v.members[i].value, w.members[i].value) {
      forall j | 0 <= j < |shapes| && j != i
        ensures Unlike(v.members[j].key, v.members[i].key) && Unlike(w.members[j].key, v.members[i].key)
      {
        assert shapes[i] != shapes[j] && shapes[i].first < '\U{80}' && shapes[j].first < '\U{80}';
      }
      SameAt(v, w, i);
    }
  }

  const POLICY_SHAPES: seq<Shape> := [
    Shape(22, 'b'), Shape(19, 'c'), Shape(29, 'c'), Shape(19, 'p'), Shape(11, 'h'), Shape(17, 'c'),
    Shape(12, 't'), Shape(14, 'a'), Shape(13, 'a'), Shape(33, 'r'), Shape(17, 's'), Shape(21, 's')]

  const SCOPE_SHAPES: seq<Shape> := [
    Shape(8, 'a'), Shape(20, 'a'), Shape(16, 'd'), Shape(19, 's'), Shape(14, 'c'), Shape(13, 'r'), Shape(9, 'i'),
    Shape(6, 's')]

  const ARCSUITE_SHAPES: seq<Shape> := [Shape(10, 's'), Shape(10, 'c'), Shape(14, 'r'), Shape(18, 'r')]

  lemma KeyShape(s: string)
    requires s != ""
    ensures |Ascii(s)| == |s| && Ascii(s)[0] as int == s[0] as int % 0x1_0000
  {}

  lemma PolicyKeyed(leq: Collation, c: Context)
    ensures Keyed(PolicyMembers(leq, c), POLICY_SHAPES)
  {
    hide Ascii, SortedStrings, ScopeMembers;
    KeyShape("binding_schema_version");
    KeyShape("contract_generation");
    KeyShape("credential_context_generation");
    KeyShape("permitted_operation");
    KeyShape("handle_kind");
    KeyShape("client_profile_id");
    KeyShape("token_sha256");
    KeyShape("allowed_scopes");
    KeyShape("allowed_tools");
    KeyShape("required_search_response_contract");
    KeyShape("selected_scope_id");
    KeyShape("selected_scope_policy");
  }

  lemma ScopeKeyed(leq: Collation, s: Scope)
    ensures Keyed(ScopeMembers(leq, s), SCOPE_SHAPES)
  {
    hide Ascii, SortedStrings, ArcSuiteValue, AttributesValue, SearchValue, Attrs, Sorted;
    KeyShape("arcsuite");
    KeyShape("allowed_object_types");
    KeyShape("default_attr_ids");
    KeyShape("semantic_attributes");
    KeyShape("content_labels");
    KeyShape("relationships");
    KeyShape("integrity");
    KeyShape("search");
  }

  lemma ArcSuiteKeyed(s: Scope)
    ensures Keyed(ArcSuiteValue(s).members, ARCSUITE_SHAPES)
  {
    hide Ascii;
    KeyShape("service_dn");
    KeyShape("cabinet_id");
    KeyShape("root_object_id");
    KeyShape("resolve_references");
  }

  lemma PolicyShapes()
    ensures Plain(POLICY_SHAPES)
  {}

  lemma ScopeShapes()
    ensures Plain(SCOPE_SHAPES) && Plain(ARCSUITE_SHAPES)
  {}

  lemma StringsTold(s: seq<Text>, t: seq<Text>)
    requires Same(SortedStrings(s), SortedStrings(t))
    ensures SameListing(s, t)
  {
    var a, b := Sorted(ByUnits(), s), Sorted(ByUnits(), t);
    var v, w := Strings(a), Strings(b);
    assert |a| == |v.items| == |w.items| == |b|;
    forall i | 0 <= i < |a| ensures a[i] == b[i] { assert v.items[i] == Str(a[i]) && w.items[i] == Str(b[i]); }
    assert a == b;
    SortedOrdered(ByUnits(), s);
    SortedOrdered(ByUnits(), t);
  }

  lemma SearchTold(s: Search, t: Search)
    requires Same(SearchValue(s), SearchValue(t))
    ensures SameSearch(s, t)
  {
    hide Sorted, Ascii;
    var v, w := SearchValue(s), SearchValue(t);
    if s.Search? && t.Search? {
      if s.fullTextModes.Some? && t.fullTextModes.Some? {
        SameAt(v, w, 0);
        StringsTold(s.fullTextModes.value, t.fullTextModes.value);
      } else if s.fullTextModes.Some? || t.fullTextModes.Some? {
        EmptyTold(v, w);
      }
    }
  }

  lemma EmptyTold(v: Value, w: Value)
    requires v.Obj? && w.Obj? && Same(v, w)
    requires forall m :: m in v.members || m in w.members ==> !m.value.Undefined?
    ensures v.members == [] <==> w.members == []
  {
    if v.members != [] { assert v.members[0] in v.members; }
    if w.members != [] { assert w.members[0] in w.members; }
  }

  lemma SameAtom(v: Value, w: Value)
    requires Same(v, w) && !v.Arr? && !v.Obj?
    ensures v == w
  {}

  /** Two scopes whose policies agree up to the order of listings and of keys. */
  ghost predicate SameScope(s: Scope, t: Scope) {
    && Same(s.serviceDn, t.serviceDn) && s.cabinetId == t.cabinetId && Same(s.rootObjectId, t.rootObjectId)
    && s.resolveReferences == t.resolveReferences
    && SameListing(s.objectTypes, t.objectTypes) && SameListing(s.attrs, t.attrs)
    && Same(AttributesValue(s.semanticAttributes), AttributesValue(t.semanticAttributes))
    && Same(s.contentLabels, t.contentLabels) && Same(s.relationships, t.relationships)
    && Same(s.integrity, t.integrity)
    && SameSearch(s.search, t.search)
  }

  ghost predicate SamePolicy(c: Context, d: Context) {
    && Same(c.bindingSchemaVersion, d.bindingSchemaVersion) && Same(c.contractGeneration, d.contractGeneration)
    && Same(c.credentialContextGeneration, d.credentialContextGeneration)
    && c.operation == d.operation && c.kind == d.kind && c.clientProfileId == d.clientProfileId
    && c.tokenSha256 == d.tokenSha256 && SameListing(c.scopes, d.scopes) && SameListing(c.tools, d.tools)
    && c.requiredContract == d.requiredContract && c.scopeId == d.scopeId && SameScope(c.scope, d.scope)
  }

  lemma ArcSuiteTold(s: Scope, t: Scope)
    requires Same(ArcSuiteValue(s), ArcSuiteValue(t))
    ensures Same(s.serviceDn, t.serviceDn) && s.cabinetId == t.cabinetId && Same(s.rootObjectId, t.rootObjectId)
    ensures s.resolveReferences == t.resolveReferences
  {
    ArcSuiteKeyed(s);
    ArcSuiteKeyed(t);
    ScopeShapes();
    hide Keyed, Plain, Ascii, Same;
    var v, w := ArcSuiteValue(s), ArcSuiteValue(t);
    SameByShape(v, w, ARCSUITE_SHAPES);
    assert Same(v.members[0].value, w.members[0].value) && Same(v.members[2].value, w.members[2].value);
    SameAtom(v.members[1].value, w.members[1].value);
    SameAtom(v.members[3].value, w.members[3].value);
  }

  /** The members of two scope policies with the same canonical text, one by one. */
  lemma ScopeTold(leq: Collation, s: Scope, t: Scope)
    requires Same(Obj(ScopeMembers(leq, s)), Obj(ScopeMembers(leq, t)))
    ensures SameScope(s, t) && Sorted(ByAttrKey(leq), s.attrs) == Sorted(ByAttrKey(leq), t.attrs)
  {
    ScopeKeyed(leq, s);
    ScopeKeyed(leq, t);
    ScopeShapes();
    hide Keyed, Plain, Ascii, Same, SortedStrings, AttributesValue, ArcSuiteValue, SearchValue, Sorted, Attrs;
    var v, w := ScopeMembers(leq, s), ScopeMembers(leq, t);
    SameByShape(Obj(v), Obj(w), SCOPE_SHAPES);
    assert Same(v[0].value, w[0].value) && Same(v[1].value, w[1].value) && Same(v[2].value, w[2].value);
    assert Same(v[3].value, w[3].value) && Same(v[4].value, w[4].value) && Same(v[5].value, w[5].value);
    assert Same(v[6].value, w[6].value) && Same(v[7].value, w[7].value);
    ArcSuiteTold(s, t);
    StringsTold(s.objectTypes, t.objectTypes);
    AttrsTold(Sorted(ByAttrKey(leq), s.attrs), Sorted(ByAttrKey(leq), t.attrs));
    SortedOrdered(ByAttrKey(leq), s.attrs);
    SortedOrdered(ByAttrKey(leq), t.attrs);
    SearchTold(s.search, t.search);
  }

  /** Equal texts come from policies that agree in every part, up to the order of listings and of keys. */
  lemma PolicyTold(leq: Collation, c: Context, d: Context)
    requires PolicyText(leq, c).Ok? && PolicyText(leq, c) == PolicyText(leq, d)
    ensures SamePolicy(c, d) && Sorted(ByAttrKey(leq), c.scope.attrs) == Sorted(ByAttrKey(leq), d.scope.attrs)
  {
    PolicyKeyed(leq, c);
    PolicyKeyed(leq, d);
    PolicyShapes();
    hide Keyed, Plain, Ascii, Same, SortedStrings, ScopeMembers, SameScope, Canonical, Sorted;
    var v, w := PolicyMembers(leq, c), PolicyMembers(leq, d);
    SameTextSameValue(leq, Obj(v), Obj(w));
    SameByShape(Obj(v), Obj(w), POLICY_SHAPES);
    assert Same(v[0].value, w[0].value) && Same(v[1].value, w[1].value) && Same(v[2].value, w[2].value);
    assert Same(v[3].value, w[3].value) && Same(v[4].value, w[4].value) && Same(v[5].value, w[5].value);
    assert Same(v[6].value, w[6].value) && Same(v[7].value, w[7].value) && Same(v[8].value, w[8].value);
    assert Same(v[9].value, w[9].value) && Same(v[10].value, w[10].value) && Same(v[11].value, w[11].value);
    SameAtom(v[3].value, w[3].value);
    SameAtom(v[4].value, w[4].value);
    SameAtom(v[5].value, w[5].value);
    SameAtom(v[6].value, w[6].value);
    SameAtom(v[9].value, w[9].value);
    SameAtom(v[10].value, w[10].value);
    StringsTold(c.scopes, d.scopes);
    StringsTold(c.tools, d.tools);
    ScopeTold(leq, c.scope, d.scope);
  }

  lemma AttrTold(a: Attr, b: Attr)
    requires Same(AttrValue(a), AttrValue(b))
    ensures a == b
  {
    hide Ascii, Same;
    var v, w := AttrValue(a), AttrValue(b);
    SameAt(v, w, 0);
    SameAt(v, w, 1);
    SameAtom(v.members[0].value, w.members[0].value);
    SameAtom(v.members[1].value, w.members[1].value);
  }

  lemma AttrsTold(s: seq<Attr>, t: seq<Attr>)
    requires Same(Attrs(s), Attrs(t))
    ensures s == t
  {
    var v, w := Attrs(s), Attrs(t);
    assert |s| == |v.items| == |w.items| == |t|;
    forall i | 0 <= i < |s| ensures s[i] == t[i] {
      assert v.items[i] == AttrValue(s[i]) && w.items[i] == AttrValue(t[i]);
      AttrTold(s[i], t[i]);
    }
  }

  /**
   * The text of the whole policy does not depend on the order of its listings
   * exactly when no two different attribute identifiers tie in the collation.
   */
  lemma ListingIrrelevantExactly(leq: Collation, c: Context)
    requires Preorder(leq) && PolicyText(leq, c).Ok?
    ensures Untied(ByAttrKey(leq), c.scope.attrs)
       <==> forall d :: Relisted(c, d) ==> PolicyText(leq, d) == PolicyText(leq, c)
  {
    hide Preorder, Canonical, PolicyMembers, Untied, Sorted;
    if Untied(ByAttrKey(leq), c.scope.attrs) {
      forall d | Relisted(c, d) ensures PolicyText(leq, d) == PolicyText(leq, c) { RelistedSamePolicy(leq, c, d); }
    } else {
      PreorderByAttrKey(leq);
      var s, t := TieMatters(ByAttrKey(leq), c.scope.attrs);
      var d, e := c.(scope := c.scope.(attrs := s)), c.(scope := c.scope.(attrs := t));
      assert Relisted(c, d) && Relisted(c, e);
      if PolicyText(leq, d) == PolicyText(leq, c) && PolicyText(leq, e) == PolicyText(leq, c) {
        PolicyTold(leq, d, e);
      }
    }
  }

  // ----- A tie -----

  /** The units a collation after the Unicode Collation Algorithm looks at. */
  function WithoutNul(t: Text): Text {
    if t == [] then [] else (if t[0] == 0 then [] else [t[0]]) + WithoutNul(t[1..])
  }

  function IgnoringNul(): Collation { (a: Text, b: Text) => UnitLeq(WithoutNul(a), WithoutNul(b)) }

  lemma {:induction false} WithoutNulConcat(a: Text, b: Text)
    ensures WithoutNul(a + b) == WithoutNul(a) + WithoutNul(b)
  {
    if a == [] {
      assert a + b == b;
    } else {
      assert (a + b)[1..] == a[1..] + b;
      WithoutNulConcat(a[1..], b);
    }
  }

  /**
   * Where the collation ignores the separator, two identifiers tie as soon as
   * their namespaces and names run together into the same text.
   */
  lemma SeparatorIgnored(a: Attr, b: Attr)
    requires a != b && WithoutNul(a.ns + a.name) == WithoutNul(b.ns + b.name)
    ensures Preorder(IgnoringNul()) && !Untied(ByAttrKey(IgnoringNul()), [a, b])
  {
    var leq := IgnoringNul();
    forall x, y ensures leq(x, y) || leq(y, x) { UnitLeqTotal(WithoutNul(x), WithoutNul(y)); }
    forall x, y, z | leq(x, y) && leq(y, z) ensures leq(x, z) {
      UnitLeqTransitive(WithoutNul(x), WithoutNul(y), WithoutNul(z));
    }
    KeyWithoutNul(a);
    KeyWithoutNul(b);
    UnitLeqTotal(WithoutNul(AttrKey(a)), WithoutNul(AttrKey(b)));
    assert ByAttrKey(leq)([a, b][0], [a, b][1]) && ByAttrKey(leq)([a, b][1], [a, b][0]);
  }

  lemma KeyWithoutNul(a: Attr)
    ensures WithoutNul(AttrKey(a)) == WithoutNul(a.ns + a.name)
  {
    WithoutNulConcat(a.ns, a.name);
    WithoutNulConcat(a.ns + [0], a.name);
    WithoutNulConcat(a.ns, [0]);
    assert [0 as Unit][1..] == [];
    assert WithoutNul([0]) == [];
  }
}
