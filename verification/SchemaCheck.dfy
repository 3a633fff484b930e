/** The check that the code generator makes before it emits anything, and what passing it means. */
module SchemaCheck {
  import opened Wrappers
  import opened Schema
  import Cbor

  datatype Declaration =
    | Proc(name: string, id: Id, input: TypeRef, output: TypeRef, error: TypeRef)
    | Type(name: string, typePath: string, decl: Decl)

  datatype SchemaError =
    | DuplicateDeclaration(name: string)
    | DuplicateProcId(id: Id)
    | DuplicateId(id: Id)
    | UnknownType(path: string)

  // ---------- what is well formed ----------

  ghost predicate DistinctNames(decls: seq<Declaration>) {
    forall i, j | 0 <= i < j < |decls| :: decls[i].name != decls[j].name
  }

  ghost predicate DistinctProcs(decls: seq<Declaration>) {
    forall i, j | 0 <= i < j < |decls| && decls[i].Proc? && decls[j].Proc? :: decls[i].id != decls[j].id
  }

  function Paths(decls: seq<Declaration>): (paths: set<string>) {
    set d | d in decls && d.Type? :: d.typePath
  }

  predicate Known(paths: set<string>, ty: TypeRef) {
    match ty
    case Named(path) => path in paths
    case ArrayOf(item) => Known(paths, item)
    case _ => true
  }

  ghost predicate GoodFields(paths: set<string>, fields: seq<Field>) {
    UniqueIds(FieldIds(fields)) && forall i | 0 <= i < |fields| :: Known(paths, fields[i].ty)
  }

  ghost predicate GoodDeclaration(paths: set<string>, d: Declaration) {
    match d
    case Proc(_, _, input, output, error) => Known(paths, input) && Known(paths, output) && Known(paths, error)
    case Type(_, _, decl) =>
      match decl
      case Struct(_, fields) => GoodFields(paths, fields)
      case Enum(ids) => UniqueIds(ids)
      case Union(_, variants) =>
        UniqueIds(VariantIds(variants)) && forall i | 0 <= i < |variants| :: GoodFields(paths, variants[i].fields)
  }

  ghost predicate WellFormed(decls: seq<Declaration>) {
    && DistinctNames(decls)
    && DistinctProcs(decls)
    && forall i | 0 <= i < |decls| :: GoodDeclaration(Paths(decls), decls[i])
  }

  // ---------- the first fault ----------

  function Or(first: Option<SchemaError>, second: Option<SchemaError>): (r: Option<SchemaError>) {
    if first.Some? then first else second
  }

  function TypeFault(paths: set<string>, ty: TypeRef): (r: Option<SchemaError>)
    ensures r.None? <==> Known(paths, ty)
  {
    match ty
    case Named(path) => if path in paths then None else Some(UnknownType(path))
    case ArrayOf(item) => TypeFault(paths, item)
    case _ => None
  }

  function TypesFault(paths: set<string>, fields: seq<Field>): (r: Option<SchemaError>)
    ensures r.None? <==> forall i | 0 <= i < |fields| :: Known(paths, fields[i].ty)
  {
    if fields == [] then None
    else
      assert fields == [fields[0]] + fields[1..];
      Or(TypeFault(paths, fields[0].ty), TypesFault(paths, fields[1..]))
  }

  /** The first id from `i` on that stands in the list before. */
  function IdsFault(items: seq<Id>, i: nat): (r: Option<SchemaError>)
    requires i <= |items|
    ensures r.None? <==> forall k | i <= k < |items| :: items[k] !in items[..k]
    decreases |items| - i
  {
    if i == |items| then None
    else if items[i] in items[..i] then Some(DuplicateId(items[i]))
    else IdsFault(items, i + 1)
  }

  lemma UniqueIsNeverBefore(items: seq<Id>)
    ensures UniqueIds(items) <==> forall k | 0 <= k < |items| :: items[k] !in items[..k]
  {
    if UniqueIds(items) {
      forall k | 0 <= k < |items| ensures items[k] !in items[..k] { }
    }
    if forall k | 0 <= k < |items| :: items[k] !in items[..k] {
      forall i, j | 0 <= i < j < |items| ensures items[i] != items[j] {
        assert items[..j][i] == items[i];
      }
    }
  }

  function FieldsFault(paths: set<string>, fields: seq<Field>): (r: Option<SchemaError>)
    ensures r.None? <==> GoodFields(paths, fields)
  {
    UniqueIsNeverBefore(FieldIds(fields));
    Or(IdsFault(FieldIds(fields), 0), TypesFault(paths, fields))
  }

  function VariantsFault(paths: set<string>, variants: seq<UnionVariant>): (r: Option<SchemaError>)
    ensures r.None? <==> forall i | 0 <= i < |variants| :: GoodFields(paths, variants[i].fields)
  {
    if variants == [] then None
    else
      assert variants == [variants[0]] + variants[1..];
      Or(FieldsFault(paths, variants[0].fields), VariantsFault(paths, variants[1..]))
  }

  function DeclarationFault(paths: set<string>, d: Declaration): (r: Option<SchemaError>)
    ensures r.None? <==> GoodDeclaration(paths, d)
  {
    match d
    case Proc(_, _, input, output, error) =>
      Or(TypeFault(paths, input), Or(TypeFault(paths, output), TypeFault(paths, error)))
    case Type(_, _, Struct(_, fields)) => FieldsFault(paths, fields)
    case Type(_, _, Enum(ids)) =>
      UniqueIsNeverBefore(ids);
      IdsFault(ids, 0)
    case Type(_, _, Union(_, variants)) =>
      UniqueIsNeverBefore(VariantIds(variants));
      Or(IdsFault(VariantIds(variants), 0), VariantsFault(paths, variants))
  }

  function DeclarationsFault(paths: set<string>, decls: seq<Declaration>): (r: Option<SchemaError>)
    ensures r.None? <==> forall i | 0 <= i < |decls| :: GoodDeclaration(paths, decls[i])
  {
    if decls == [] then None
    else
      assert decls == [decls[0]] + decls[1..];
      Or(DeclarationFault(paths, decls[0]), DeclarationsFault(paths, decls[1..]))
  }

  ghost function NamesBefore(decls: seq<Declaration>, i: nat): (names: set<string>)
    requires i <= |decls|
  {
    set k | 0 <= k < i :: decls[k].name
  }

  ghost function ProcsBefore(decls: seq<Declaration>, i: nat): (ids: set<Id>)
    requires i <= |decls|
  {
    set k | 0 <= k < i && decls[k].Proc? :: decls[k].id
  }

  ghost function PathsBefore(decls: seq<Declaration>, i: nat): (paths: set<string>)
    requires i <= |decls|
  {
    set k | 0 <= k < i && decls[k].Type? :: decls[k].typePath
  }

  lemma BeforeGrows(decls: seq<Declaration>, i: nat)
    requires i < |decls|
    ensures NamesBefore(decls, i + 1) == NamesBefore(decls, i) + {decls[i].name}
    ensures ProcsBefore(decls, i + 1) == ProcsBefore(decls, i) + if decls[i].Proc? then {decls[i].id} else {}
    ensures PathsBefore(decls, i + 1) == PathsBefore(decls, i) + if decls[i].Type? then {decls[i].typePath} else {}
  {
  }

  lemma BeforeBounds(decls: seq<Declaration>)
    ensures NamesBefore(decls, 0) == {} && ProcsBefore(decls, 0) == {} && PathsBefore(decls, 0) == {}
    ensures PathsBefore(decls, |decls|) == Paths(decls)
  {
  }

  /** The name of declaration `i`, or its proc id, stands before. */
  ghost function NameFault(decls: seq<Declaration>, i: nat): (r: Option<SchemaError>)
    requires i < |decls|
  {
    if decls[i].name in NamesBefore(decls, i) then Some(DuplicateDeclaration(decls[i].name))
    else if decls[i].Proc? && decls[i].id in ProcsBefore(decls, i)
    then Some(DuplicateProcId(decls[i].id))
    else None
  }

  ghost function NamesFault(decls: seq<Declaration>, i: nat): (r: Option<SchemaError>)
    requires i <= |decls|
    ensures r.None? <==> forall k | i <= k < |decls| :: NameFault(decls, k).None?
    decreases |decls| - i
  {
    if i == |decls| then None else Or(NameFault(decls, i), NamesFault(decls, i + 1))
  }

  lemma DistinctIsNeverBefore(decls: seq<Declaration>)
    ensures DistinctNames(decls) && DistinctProcs(decls) <==> forall k | 0 <= k < |decls| :: NameFault(decls, k).None?
  {
    if forall k | 0 <= k < |decls| :: NameFault(decls, k).None? {
      forall i, j | 0 <= i < j < |decls|
        ensures decls[i].name != decls[j].name && (decls[i].Proc? && decls[j].Proc? ==> decls[i].id != decls[j].id)
      {
        assert NameFault(decls, j).None?;
      }
    }
  }

  /** The fault that the check reports: names and proc ids first, then the declarations in order. */
  ghost function FirstFault(decls: seq<Declaration>): (r: Option<SchemaError>)
    ensures r.None? <==> WellFormed(decls)
  {
    DistinctIsNeverBefore(decls);
    Or(NamesFault(decls, 0), DeclarationsFault(Paths(decls), decls))
  }

  // ---------- the check ----------

  method ValidateTypeRef(paths: set<string>, ty: TypeRef) returns (error: Option<SchemaError>)
    ensures error == TypeFault(paths, ty)
    decreases ty
  {
    error := None;
    if ty.ArrayOf? {
      error := ValidateTypeRef(paths, ty.item);
    }
    if ty.Named? && ty.path !in paths {
      error := Some(UnknownType(ty.path));
    }
  }

  method ValidateUniqueIds(items: seq<Id>) returns (error: Option<SchemaError>)
    ensures error == IdsFault(items, 0)
  {
    var ids: set<Id> := {};
    for i := 0 to |items|
      invariant ids == set k | 0 <= k < i :: items[k]
      invariant IdsFault(items, 0) == IdsFault(items, i)
    {
      assert items[i] in ids <==> items[i] in items[..i] by {
        if items[i] in items[..i] {
          var k :| 0 <= k < i && items[..i][k] == items[i];
        }
      }
      if items[i] in ids {
        return Some(DuplicateId(items[i]));
      }
      ids := ids + {items[i]};
    }
    return None;
  }

  method ValidateFields(paths: set<string>, fields: seq<Field>) returns (error: Option<SchemaError>)
    ensures error == FieldsFault(paths, fields)
  {
    error := ValidateUniqueIds(FieldIds(fields));
    if error.Some? {
      return;
    }
    assert fields[0..] == fields;
    for i := 0 to |fields|
      invariant TypesFault(paths, fields) == TypesFault(paths, fields[i..])
    {
      assert fields[i..][1..] == fields[i + 1..];
      error := ValidateTypeRef(paths, fields[i].ty);
      if error.Some? {
        return;
      }
    }
    error := None;
  }

  method ValidateVariants(paths: set<string>, variants: seq<UnionVariant>) returns (error: Option<SchemaError>)
    ensures error == VariantsFault(paths, variants)
  {
    assert variants[0..] == variants;
    for i := 0 to |variants|
      invariant VariantsFault(paths, variants) == VariantsFault(paths, variants[i..])
    {
      assert variants[i..][1..] == variants[i + 1..];
      error := ValidateFields(paths, variants[i].fields);
      if error.Some? {
        return;
      }
    }
    error := None;
  }

  method ValidateDeclaration(paths: set<string>, d: Declaration) returns (error: Option<SchemaError>)
    ensures error == DeclarationFault(paths, d)
  {
    match d
    case Proc(_, _, input, output, failure) =>
      error := ValidateTypeRef(paths, input);
      if error.None? {
        error := ValidateTypeRef(paths, output);
      }
      if error.None? {
        error := ValidateTypeRef(paths, failure);
      }
    case Type(_, _, Struct(_, fields)) =>
      error := ValidateFields(paths, fields);
    case Type(_, _, Enum(ids)) =>
      error := ValidateUniqueIds(ids);
    case Type(_, _, Union(_, variants)) =>
      error := ValidateUniqueIds(VariantIds(variants));
      if error.None? {
        error := ValidateVariants(paths, variants);
      }
  }

  /** The first pass: the names and proc ids, and the paths of the declared types. */
  method CollectNames(decls: seq<Declaration>) returns (paths: set<string>, error: Option<SchemaError>)
    ensures error == NamesFault(decls, 0)
    ensures error.None? ==> paths == Paths(decls)
  {
    hide NamesBefore, ProcsBefore, PathsBefore, Paths;
    var names: set<string>, procIds: set<Id> := {}, {};
    paths := {};
    BeforeBounds(decls);
    for i := 0 to |decls|
      invariant names == NamesBefore(decls, i) && procIds == ProcsBefore(decls, i) && paths == PathsBefore(decls, i)
      invariant NamesFault(decls, 0) == NamesFault(decls, i)
    {
      var d := decls[i];
      BeforeGrows(decls, i);
      if d.name in names {
        return paths, Some(DuplicateDeclaration(d.name));
      }
      names := names + {d.name};
      if d.Proc? {
        if d.id in procIds {
          return paths, Some(DuplicateProcId(d.id));
        }
        procIds := procIds + {d.id};
      } else {
        paths := paths + {d.typePath};
      }
    }
    error := None;
  }

  method ValidateSchema(decls: seq<Declaration>) returns (error: Option<SchemaError>)
    ensures error == FirstFault(decls)
  {
    var paths;
    paths, error := CollectNames(decls);
    if error.Some? {
      return;
    }
    assert decls[0..] == decls;
    for i := 0 to |decls|
      invariant DeclarationsFault(paths, decls) == DeclarationsFault(paths, decls[i..])
    {
      assert decls[i..][1..] == decls[i + 1..];
      error := ValidateDeclaration(paths, decls[i]);
      if error.Some? {
        return;
      }
    }
    error := None;
  }

  // ---------- what the check is for ----------

  /** The declarations by path; a later one replaces an earlier one. */
  function DeclarationMap(decls: seq<Declaration>): (s: Schema)
    decreases |decls|
  {
    if decls == [] then map[]
    else
      var last := decls[|decls| - 1];
      var s := DeclarationMap(decls[..|decls| - 1]);
      if last.Type? then s[last.typePath := last.decl] else s
  }

  lemma {:induction false} MapHasThePaths(decls: seq<Declaration>)
    ensures DeclarationMap(decls).Keys == Paths(decls)
    ensures forall path | path in DeclarationMap(decls) ::
      exists i :: 0 <= i < |decls| && decls[i].Type? && decls[i].typePath == path
        && decls[i].decl == DeclarationMap(decls)[path]
    decreases |decls|
  {
    if decls != [] {
      var front, last := decls[..|decls| - 1], decls[|decls| - 1];
      MapHasThePaths(front);
      assert decls == front + [last];
      var s := DeclarationMap(decls);
      forall path | path in s
        ensures exists i :: 0 <= i < |decls| && decls[i].Type? && decls[i].typePath == path && decls[i].decl == s[path]
      {
        if last.Type? && path == last.typePath {
          assert decls[|decls| - 1].Type? && decls[|decls| - 1].decl == s[path];
        } else {
          var i :| 0 <= i < |front| && front[i].Type? && front[i].typePath == path && front[i].decl == s[path];
          assert decls[i] == front[i];
        }
      }
    }
  }

  lemma {:induction false} KnownIsDeclared(s: Schema, ty: TypeRef)
    ensures Known(s.Keys, ty) <==> Declared(s, ty)
    decreases ty
  {
    if ty.ArrayOf? {
      KnownIsDeclared(s, ty.item);
    }
  }

  /** Some of what the Rust compiler demands beyond the check: enums and unions have variants, and no type
      contains itself except through an array or an optional field.  The compiler also rejects the latter, so
      this admits every schema whose emitted types compile, and more. */
  ghost predicate Sized(s: Schema) {
    forall path | path in s ::
      match s[path]
      case Struct(depth, fields) => FieldsSized(s, fields, depth)
      case Enum(ids) => ids != []
      case Union(depth, variants) =>
        variants != [] && forall i | 0 <= i < |variants| :: FieldsSized(s, variants[i].fields, depth)
  }

  ghost predicate FieldsSized(s: Schema, fields: seq<Field>, depth: nat) {
    && |fields| <= Cbor.MAX_SAFE
    && forall i | 0 <= i < |fields| && Declared(s, fields[i].ty) && !fields[i].optional :: Depth(s, fields[i].ty) < depth
  }

  lemma GoodFieldsAreValid(s: Schema, fields: seq<Field>, depth: nat)
    requires GoodFields(s.Keys, fields) && FieldsSized(s, fields, depth)
    ensures ValidFields(s, fields, depth)
  {
    forall i | 0 <= i < |fields| ensures Declared(s, fields[i].ty) {
      KnownIsDeclared(s, fields[i].ty);
    }
  }

  /** Every schema that passes the check and whose types the Rust compiler can lay out has all that the
      round-trip theorems ask of a schema. */
  lemma AcceptedSchemaIsValid(decls: seq<Declaration>)
    requires WellFormed(decls) && Sized(DeclarationMap(decls))
    ensures Valid(DeclarationMap(decls))
  {
    var s := DeclarationMap(decls);
    MapHasThePaths(decls);
    forall path | path in s ensures ValidDecl(s, s[path]) {
      var i :| 0 <= i < |decls| && decls[i].Type? && decls[i].typePath == path && decls[i].decl == s[path];
      assert GoodDeclaration(s.Keys, decls[i]);
      match s[path]
      case Struct(depth, fields) => GoodFieldsAreValid(s, fields, depth);
      case Enum(ids) =>
      case Union(depth, variants) =>
        forall k | 0 <= k < |variants| ensures ValidFields(s, variants[k].fields, depth) {
          GoodFieldsAreValid(s, variants[k].fields, depth);
        }
    }
  }
}
