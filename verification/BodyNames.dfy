/**
 Owner-scoped body-name equivalence: body identifiers are renamed by role and
 only inside the body-reference fields.
 */
module BodyNames {
  import opened Trees
  import opened Wrappers

  type Json<A> = Tree<string, A>

  datatype Entity = Entity(role: string, id: string)

  /** A record with its body entities set apart from its other fields. */
  datatype Record<A> = Record(entities: seq<Entity>, fields: map<string, Json<A>>)

  const BODY_REFERENCE_FIELDS: set<string> :=
    {"body_instance_id", "new_body_instance_id", "held_body_instance_id", "actor_body_instance_id"}

  /** `{row["role"]: row["id"] for row in entities}`: a repeated role keeps its last id. */
  function RoleIds(entities: seq<Entity>): map<string, string> {
    if entities == [] then map[]
    else RoleIds(entities[..|entities| - 1])[entities[|entities| - 1].role := entities[|entities| - 1].id]
  }

  ghost predicate OneToOne(ids: map<string, string>) {
    forall r, r' | r in ids && r' in ids && ids[r] == ids[r'] :: r == r'
  }

  ghost function RoleOf(ids: map<string, string>, id: string): (role: string)
    requires id in ids.Values
    ensures role in ids && ids[role] == id
  {
    var role :| role in ids && ids[role] == id;
    role
  }

  /** Defined when the roles agree and neither side gives two roles one id. */
  ghost function BodyMapping(left: map<string, string>, right: map<string, string>): Option<map<string, string>> {
    if left.Keys != right.Keys || !OneToOne(left) || !OneToOne(right) then None
    else Some(map id | id in left.Values :: right[RoleOf(left, id)])
  }

  function Apply(mapping: map<string, string>, id: string): string {
    if id in mapping then mapping[id] else id
  }

  /** Renames string values under a reference field; lists pass the field name on, dictionaries replace it. */
  ghost function Rename<A>(value: Json<A>, f: string -> string, key: string): Json<A>
    decreases value
  {
    match value
    case Text(text) => if key in BODY_REFERENCE_FIELDS then Text(f(text)) else value
    case Scalar(_) => value
    case List(items) => List(seq(|items|, i requires 0 <= i < |items| => Rename(items[i], f, key)))
    case Dict(fields) => Dict(map k | k in fields :: Rename(fields[k], f, k))
  }

  ghost function RenameFields<A>(fields: map<string, Json<A>>, f: string -> string): map<string, Json<A>> {
    map k | k in fields :: Rename(fields[k], f, k)
  }

  ghost function Ids<A>(r: Record<A>): map<string, string> {
    RoleIds(r.entities)
  }

  /** Comparison after renaming the left record; its entity list is replaced by the right one. */
  ghost predicate AlphaEquivalent<A>(left: Record<A>, right: Record<A>) {
    var mapping := BodyMapping(Ids(left), Ids(right));
    mapping.Some? && RenameFields(left.fields, id => Apply(mapping.value, id)) == right.fields
  }

  // ------------------------------------------------- references and renaming

  ghost predicate Refers<A>(value: Json<A>, key: string, id: string)
    decreases value
  {
    match value
    case Text(text) => key in BODY_REFERENCE_FIELDS && text == id
    case Scalar(_) => false
    case List(items) => exists i | 0 <= i < |items| :: Refers(items[i], key, id)
    case Dict(fields) => exists k | k in fields :: Refers(fields[k], k, id)
  }

  /** The record mentions `id` in some body-reference field. */
  ghost predicate References<A>(r: Record<A>, id: string) {
    exists k | k in r.fields :: Refers(r.fields[k], k, id)
  }

  /** Two renamings give the same value exactly when they agree on its references. */
  lemma {:induction false} RenameAgree<A>(value: Json<A>, f: string -> string, g: string -> string, key: string)
    ensures Rename(value, f, key) == Rename(value, g, key) <==> forall id | Refers(value, key, id) :: f(id) == g(id)
    decreases value
  {
    match value {
      case Text(text) => assert key in BODY_REFERENCE_FIELDS ==> Refers(value, key, text);
      case Scalar(_) =>
      case List(items) =>
        forall i | 0 <= i < |items|
          ensures Rename(items[i], f, key) == Rename(items[i], g, key) <==> forall id | Refers(items[i], key, id) :: f(id) == g(id)
        {
          RenameAgree(items[i], f, g, key);
        }
        var a, b := Rename(value, f, key).items, Rename(value, g, key).items;
        assert a == b <==> forall i | 0 <= i < |items| :: Rename(items[i], f, key) == Rename(items[i], g, key) by {
          assert forall i | 0 <= i < |items| :: a[i] == Rename(items[i], f, key) && b[i] == Rename(items[i], g, key);
        }
        assert forall id :: Refers(value, key, id) <==> exists i | 0 <= i < |items| :: Refers(items[i], key, id);
      case Dict(fields) => FieldsAgree(fields, f, g, value);
    }
  }

  lemma {:induction false} FieldsAgree<A>(fields: map<string, Json<A>>, f: string -> string, g: string -> string, parent: Json<A>)
    requires forall k | k in fields :: fields[k] < parent
    ensures RenameFields(fields, f) == RenameFields(fields, g)
            <==> forall k, id | k in fields && Refers(fields[k], k, id) :: f(id) == g(id)
    decreases parent, 0
  {
    forall k | k in fields
      ensures Rename(fields[k], f, k) == Rename(fields[k], g, k) <==> forall id | Refers(fields[k], k, id) :: f(id) == g(id)
    {
      RenameAgree(fields[k], f, g, k);
    }
    var a, b := RenameFields(fields, f), RenameFields(fields, g);
    assert a.Keys == b.Keys && (a == b <==> forall k | k in fields :: a[k] == b[k]);
  }

  /** Renaming twice is renaming by the composition. */
  lemma {:induction false} RenameTwice<A>(value: Json<A>, f: string -> string, g: string -> string, key: string)
    ensures Rename(Rename(value, f, key), g, key) == Rename(value, id => g(f(id)), key)
    decreases value
  {
    match value {
      case Text(_) =>
      case Scalar(_) =>
      case List(items) =>
        forall i | 0 <= i < |items|
          ensures Rename(Rename(items[i], f, key), g, key) == Rename(items[i], id => g(f(id)), key)
        {
          RenameTwice(items[i], f, g, key);
        }
      case Dict(fields) =>
        forall k | k in fields ensures Rename(Rename(fields[k], f, k), g, k) == Rename(fields[k], id => g(f(id)), k) {
          RenameTwice(fields[k], f, g, k);
        }
    }
  }

  lemma FieldsTwice<A>(fields: map<string, Json<A>>, f: string -> string, g: string -> string)
    ensures RenameFields(RenameFields(fields, f), g) == RenameFields(fields, id => g(f(id)))
  {
    forall k | k in fields ensures Rename(Rename(fields[k], f, k), g, k) == Rename(fields[k], id => g(f(id)), k) {
      RenameTwice(fields[k], f, g, k);
    }
  }

  lemma {:induction false} RenameNothing<A>(value: Json<A>, key: string)
    ensures Rename(value, id => id, key) == value
    decreases value
  {
    match value {
      case Text(_) =>
      case Scalar(_) =>
      case List(items) =>
        forall i | 0 <= i < |items| ensures Rename(items[i], id => id, key) == items[i] {
          RenameNothing(items[i], key);
        }
        assert Rename(value, id => id, key).items == items;
      case Dict(fields) =>
        forall k | k in fields ensures Rename(fields[k], id => id, k) == fields[k] {
          RenameNothing(fields[k], k);
        }
        assert Rename(value, id => id, key).fields == fields;
    }
  }

  /** The record-level forms of the three renaming laws. */
  lemma RecordAgree<A>(r: Record<A>, f: string -> string, g: string -> string)
    ensures RenameFields(r.fields, f) == RenameFields(r.fields, g) <==> forall id | References(r, id) :: f(id) == g(id)
  {
    FieldsAgree(r.fields, f, g, Dict(r.fields));
    assert forall k, id | k in r.fields && Refers(r.fields[k], k, id) :: References(r, id);
  }

  lemma RecordUnchanged<A>(r: Record<A>, f: string -> string)
    ensures RenameFields(r.fields, f) == r.fields <==> forall id | References(r, id) :: f(id) == id
  {
    forall k | k in r.fields ensures Rename(r.fields[k], id => id, k) == r.fields[k] {
      RenameNothing(r.fields[k], k);
    }
    assert RenameFields(r.fields, id => id) == r.fields;
    RecordAgree(r, f, id => id);
  }

  // ------------------------------------------------------------ the theorems

  /** Reflexive exactly when no id is listed under two roles. */
  lemma ReflexiveExactly<A>(r: Record<A>)
    ensures AlphaEquivalent(r, r) <==> OneToOne(Ids(r))
  {
    var mapping := BodyMapping(Ids(r), Ids(r));
    if mapping.Some? {
      forall id ensures Apply(mapping.value, id) == id {}
      RecordUnchanged(r, id => Apply(mapping.value, id));
    }
  }

  /** Symmetry fails exactly on capture: a reference unlisted on the left that names a body listed on the right. */
  lemma SymmetricExactly<A>(left: Record<A>, right: Record<A>)
    requires AlphaEquivalent(left, right)
    ensures AlphaEquivalent(right, left)
            <==> forall id | References(left, id) && id in Ids(right).Values :: id in Ids(left).Values
  {
    var there, back := BodyMapping(Ids(left), Ids(right)).value, BodyMapping(Ids(right), Ids(left)).value;
    var f := (id: string) => Apply(there, id);
    var g := (id: string) => Apply(back, id);
    assert RenameFields(left.fields, id => Apply(there, id)) == RenameFields(left.fields, f);
    FieldsTwice(left.fields, f, g);
    RecordUnchanged(left, id => g(f(id)));
    assert RenameFields(right.fields, id => Apply(back, id)) == RenameFields(right.fields, g);
    forall id ensures g(f(id)) == id <==> (id in Ids(right).Values ==> id in Ids(left).Values) {
      BackAndForth(Ids(left), Ids(right), id);
    }
  }

  lemma BackAndForth(left: map<string, string>, right: map<string, string>, id: string)
    requires BodyMapping(left, right).Some?
    ensures BodyMapping(right, left).Some?
    ensures var there, back := BodyMapping(left, right).value, BodyMapping(right, left).value;
            Apply(back, Apply(there, id)) == id <==> (id in right.Values ==> id in left.Values)
  {}

  /** Transitivity fails exactly when an unlisted reference is captured in the middle and then moved. */
  lemma TransitiveExactly<A>(left: Record<A>, middle: Record<A>, right: Record<A>)
    requires AlphaEquivalent(left, middle) && AlphaEquivalent(middle, right)
    ensures AlphaEquivalent(left, right)
            <==> forall id | References(left, id) && id !in Ids(left).Values && id in Ids(middle).Values ::
                   BodyMapping(Ids(middle), Ids(right)).value[id] == id
  {
    var first, second := BodyMapping(Ids(left), Ids(middle)).value, BodyMapping(Ids(middle), Ids(right)).value;
    var direct := BodyMapping(Ids(left), Ids(right)).value;
    var f := (id: string) => Apply(first, id);
    var g := (id: string) => Apply(second, id);
    var h := (id: string) => Apply(direct, id);
    assert RenameFields(left.fields, id => Apply(first, id)) == RenameFields(left.fields, f);
    assert RenameFields(middle.fields, id => Apply(second, id)) == RenameFields(middle.fields, g);
    assert RenameFields(left.fields, id => Apply(direct, id)) == RenameFields(left.fields, h);
    FieldsTwice(left.fields, f, g);
    RecordAgree(left, h, id => g(f(id)));
    forall id
      ensures h(id) == g(f(id)) <==> (id !in Ids(left).Values && id in Ids(middle).Values ==> second[id] == id)
    {
      if id in Ids(left).Values {
        var role := RoleOf(Ids(left), id);
        assert Ids(middle)[role] in Ids(middle).Values && RoleOf(Ids(middle), Ids(middle)[role]) == role;
      }
    }
  }

  /** Every body reference names a listed body. */
  ghost predicate WellScoped<A>(r: Record<A>) {
    forall id | References(r, id) :: id in Ids(r).Values
  }

  /** Each id replaced by the role it plays. */
  ghost function ByRole<A>(r: Record<A>): map<string, Json<A>> {
    RenameFields(r.fields, ToRole(Ids(r)))
  }

  /** Between well-scoped records the comparison means: the same roles, and the same record once ids are read as roles. */
  lemma MeansEqualByRole<A>(left: Record<A>, right: Record<A>)
    requires WellScoped(left) && WellScoped(right)
    requires OneToOne(Ids(left)) && OneToOne(Ids(right))
    ensures AlphaEquivalent(left, right) <==> Ids(left).Keys == Ids(right).Keys && ByRole(left) == ByRole(right)
  {
    if Ids(left).Keys == Ids(right).Keys {
      RenamingIsMapping(left, right);
      RolesOfRenamed(left, Ids(right));
      IdsOfRoles(left, Ids(right));
      IdsOfOwnRoles(right);
    }
  }

  /** Reading the renamed record by the new roles is reading the original by its own. */
  lemma RolesOfRenamed<A>(left: Record<A>, right: map<string, string>)
    requires WellScoped(left) && BodyMapping(Ids(left), right).Some?
    ensures RenameFields(RenameFields(left.fields, Renaming(Ids(left), right)), ToRole(right)) == ByRole(left)
  {
    var f := Renaming(Ids(left), right);
    FieldsTwice(left.fields, f, ToRole(right));
    RecordAgree(left, ToRole(Ids(left)), id => ToRole(right)(f(id)));
    forall id | References(left, id) ensures ToRole(Ids(left))(id) == ToRole(right)(f(id)) {
      RolesRoundTrip(Ids(left), right, id);
    }
  }

  /** Turning roles into the new ids is the renaming. */
  lemma IdsOfRoles<A>(left: Record<A>, right: map<string, string>)
    requires WellScoped(left) && BodyMapping(Ids(left), right).Some?
    ensures RenameFields(ByRole(left), ToId(right)) == RenameFields(left.fields, Renaming(Ids(left), right))
  {
    var f := Renaming(Ids(left), right);
    FieldsTwice(left.fields, ToRole(Ids(left)), ToId(right));
    RecordAgree(left, f, id => ToId(right)(ToRole(Ids(left))(id)));
    forall id | References(left, id) ensures f(id) == ToId(right)(ToRole(Ids(left))(id)) {
      RolesRoundTrip(Ids(left), right, id);
    }
  }

  lemma IdsOfOwnRoles<A>(r: Record<A>)
    requires WellScoped(r) && OneToOne(Ids(r))
    ensures RenameFields(ByRole(r), ToId(Ids(r))) == r.fields
  {
    FieldsTwice(r.fields, ToRole(Ids(r)), ToId(Ids(r)));
    RecordUnchanged(r, id => ToId(Ids(r))(ToRole(Ids(r))(id)));
    forall id | References(r, id) ensures ToId(Ids(r))(ToRole(Ids(r))(id)) == id {
      RolesRoundTrip(Ids(r), Ids(r), id);
    }
  }

  ghost function Renaming(left: map<string, string>, right: map<string, string>): string -> string
    requires BodyMapping(left, right).Some?
  {
    id => Apply(BodyMapping(left, right).value, id)
  }

  ghost function ToRole(ids: map<string, string>): string -> string {
    id => if id in ids.Values then RoleOf(ids, id) else id
  }

  ghost function ToId(ids: map<string, string>): string -> string {
    role => if role in ids then ids[role] else role
  }

  lemma RenamingIsMapping<A>(left: Record<A>, right: Record<A>)
    requires BodyMapping(Ids(left), Ids(right)).Some?
    ensures AlphaEquivalent(left, right) <==> RenameFields(left.fields, Renaming(Ids(left), Ids(right))) == right.fields
  {}

  lemma RolesRoundTrip(left: map<string, string>, right: map<string, string>, id: string)
    requires BodyMapping(left, right).Some?
    ensures id in left.Values ==>
              ToRole(right)(Renaming(left, right)(id)) == ToRole(left)(id) && ToId(right)(ToRole(left)(id)) == Renaming(left, right)(id)
    ensures id in right.Values ==> ToId(right)(ToRole(right)(id)) == id
  {}

  /** On well-scoped records with one id per role the comparison is an equivalence. */
  lemma EquivalenceInScope<A>(a: Record<A>, b: Record<A>, c: Record<A>)
    requires WellScoped(a) && WellScoped(b) && WellScoped(c)
    requires OneToOne(Ids(a)) && OneToOne(Ids(b)) && OneToOne(Ids(c))
    ensures AlphaEquivalent(a, a)
    ensures AlphaEquivalent(a, b) ==> AlphaEquivalent(b, a)
    ensures AlphaEquivalent(a, b) && AlphaEquivalent(b, c) ==> AlphaEquivalent(a, c)
  {
    MeansEqualByRole(a, a);
    MeansEqualByRole(a, b);
    MeansEqualByRole(b, a);
    MeansEqualByRole(b, c);
    MeansEqualByRole(a, c);
  }

  /** A record with one body and one field that refers to `target`. */
  function OneReference(role: string, id: string, target: string): Record<int> {
    Record([Entity(role, id)], map["body_instance_id" := Text(target)])
  }

  lemma OneReferenceFacts(role: string, id: string, target: string)
    ensures Ids(OneReference(role, id, target)) == map[role := id]
    ensures forall other :: References(OneReference(role, id, target), other) <==> other == target
  {
    var r := OneReference(role, id, target);
    assert r.entities[..0] == [];
    assert RoleIds(r.entities) == RoleIds([])[role := id];
    forall other ensures References(r, other) <==> other == target {
      assert Refers(r.fields["body_instance_id"], "body_instance_id", other) <==> other == target;
    }
  }

  lemma OneReferenceRenamed(target: string, f: string -> string)
    ensures RenameFields(OneReference("", "", target).fields, f) == map["body_instance_id" := Text(f(target))]
  {}

  /** The one-body records compare equal exactly when the reference moves with the body or stays as it is. */
  lemma OneReferenceEquivalent(role: string, x: string, target: string, y: string, other: string)
    ensures AlphaEquivalent(OneReference(role, x, target), OneReference(role, y, other))
       <==> other == if target == x then y else target
  {
    var left, right := OneReference(role, x, target), OneReference(role, y, other);
    OneReferenceFacts(role, x, target);
    OneReferenceFacts(role, y, other);
    OneBodyMapping(role, x, y);
    hide References, RoleIds, Rename, RenameFields, AlphaEquivalent, BodyMapping;
    RenamingIsMapping(left, right);
    var f := Renaming(Ids(left), Ids(right));
    OneReferenceRenamed(target, f);
    var renamed: map<string, Json<int>> := map["body_instance_id" := Text(f(target))];
    assert renamed == right.fields <==> Text(f(target)) == right.fields["body_instance_id"];
  }

  lemma OneBodyMapping(role: string, x: string, y: string)
    ensures BodyMapping(map[role := x], map[role := y]) == Some(map[x := y])
  {
    var left, right := map[role := x], map[role := y];
    assert left[role] == x && x in left.Values;
    var mapping := BodyMapping(left, right).value;
    assert forall id :: id in mapping <==> id == x;
    assert RoleOf(left, x) == role && mapping == map[x := y];
  }

  /** A capture in the middle that moves on: the unlisted reference follows the middle body and not the first. */
  lemma CaptureBreaksTransitivity(role: string, x: string, y: string, z: string)
    requires x != y && y != z
    ensures AlphaEquivalent(OneReference(role, x, y), OneReference(role, y, y))
    ensures AlphaEquivalent(OneReference(role, y, y), OneReference(role, z, z))
    ensures !AlphaEquivalent(OneReference(role, x, y), OneReference(role, z, z))
  {
    hide AlphaEquivalent;
    OneReferenceEquivalent(role, x, y, y, y);
    OneReferenceEquivalent(role, y, y, z, z);
    OneReferenceEquivalent(role, x, y, z, z);
  }

  /** A capture: the unlisted reference equals the right-hand id, so the comparison succeeds one way only. */
  lemma CaptureBreaksSymmetry(role: string, x: string, y: string)
    requires x != y
    ensures AlphaEquivalent(OneReference(role, x, y), OneReference(role, y, y))
    ensures !AlphaEquivalent(OneReference(role, y, y), OneReference(role, x, y))
  {
    hide AlphaEquivalent;
    OneReferenceEquivalent(role, x, y, y, y);
    OneReferenceEquivalent(role, y, y, x, y);
  }

  // ------------------------------------- what is read and what is renamed

  /** Every role is read, with the id of the last entity that plays it. */
  lemma {:induction false} RoleIdsExactly(entities: seq<Entity>, role: string, id: string)
    ensures role in RoleIds(entities) && RoleIds(entities)[role] == id <==>
              exists i | 0 <= i < |entities| ::
                entities[i] == Entity(role, id) && forall j | i < j < |entities| :: entities[j].role != role
  {
    if entities != [] {
      var n := |entities| - 1;
      RoleIdsExactly(entities[..n], role, id);
      if entities[n].role == role {
        assert entities[n].id == id ==> entities[n] == Entity(role, id);
      }
    }
  }

  /** A step from a value into one of its members. */
  datatype Step = Field(name: string) | Item(index: nat)

  /** The value a path leads to. */
  function Follow<A>(value: Json<A>, path: seq<Step>): Option<Json<A>>
    decreases |path|
  {
    if path == [] then Some(value)
    else match path[0]
      case Field(name) => if value.Dict? && name in value.fields then Follow(value.fields[name], path[1..]) else None
      case Item(index) => if value.List? && index < |value.items| then Follow(value.items[index], path[1..]) else None
  }

  /** The innermost field name on the path, which lists pass on. */
  function FieldOf(path: seq<Step>, key: string): string
    decreases |path|
  {
    if path == [] then key else FieldOf(path[1..], if path[0].Field? then path[0].name else key)
  }

  /**
   Renaming keeps the shape, and at every path it changes exactly the texts whose
   innermost field is a body reference.
   */
  lemma {:induction false} RenamedAtPath<A>(value: Json<A>, f: string -> string, key: string, path: seq<Step>)
    ensures Follow(Rename(value, f, key), path).Some? <==> Follow(value, path).Some?
    ensures forall text | Follow(value, path) == Some(Text(text)) ::
              Follow(Rename(value, f, key), path) == Some(Text(if FieldOf(path, key) in BODY_REFERENCE_FIELDS then f(text) else text))
    ensures forall atom | Follow(value, path) == Some(Scalar(atom)) :: Follow(Rename(value, f, key), path) == Some(Scalar(atom))
    decreases |path|
  {
    if path != [] {
      match path[0] {
        case Field(name) =>
          if value.Dict? && name in value.fields {
            RenamedAtPath(value.fields[name], f, name, path[1..]);
          }
        case Item(index) =>
          if value.List? && index < |value.items| {
            RenamedAtPath(value.items[index], f, key, path[1..]);
          }
      }
    }
  }
}
