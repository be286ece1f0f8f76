/**
 Inferring EIP-712 type definitions from a payload's messages: ethereum/eip712/types.go.
 The title-caser of the library is a parameter.
 */
module Eip712Types {
  import opened Prelude
  import opened Strings
  import opened Json
  import Eip712Message

  datatype Field = Field(name: string, typ: string)

  type Types = map<string, seq<Field>>

  datatype Error = NotAnObject | NoMessageType | TooManyDuplicates

  type TitleCaser = string -> string

  // ---------- Type names ----------

  function TitleAll(title: TitleCaser, parts: seq<string>): string {
    if parts == [] then [] else TitleAll(title, parts[..|parts| - 1]) + title(parts[|parts| - 1])
  }

  function SanitizePart(title: TitleCaser, part: string): string {
    if part == "_" then "Type" else TitleAll(title, Split(part, '_'))
  }

  function SanitizeParts(title: TitleCaser, parts: seq<string>): string {
    if parts == [] then [] else SanitizeParts(title, parts[..|parts| - 1]) + SanitizePart(title, parts[|parts| - 1])
  }

  /** What sanitizeTypedef computes. */
  function Sanitized(title: TitleCaser, s: string): string {
    SanitizeParts(title, Split(s, '.'))
  }

  /** sanitizeTypedef with its buffer. */
  method SanitizeTypedef(title: TitleCaser, s: string) returns (buf: string)
    ensures buf == Sanitized(title, s)
  {
    buf := [];
    var parts := Split(s, '.');
    for i := 0 to |parts|
      invariant buf == SanitizeParts(title, parts[..i])
    {
      assert parts[..i + 1][..i] == parts[..i];
      if parts[i] == "_" {
        buf := buf + "Type";
        continue;
      }
      buf := WriteTitles(title, Split(parts[i], '_'), buf);
    }
    assert parts[..|parts|] == parts;
  }

  /** The inner loop, over the pieces between underscores. */
  method WriteTitles(title: TitleCaser, subparts: seq<string>, before: string) returns (buf: string)
    ensures buf == before + TitleAll(title, subparts)
  {
    buf := before;
    for j := 0 to |subparts|
      invariant buf == before + TitleAll(title, subparts[..j])
    {
      assert subparts[..j + 1][..j] == subparts[..j];
      ConcatAssociates(before, TitleAll(title, subparts[..j]), title(subparts[j]));
      buf := buf + title(subparts[j]);
    }
    assert subparts[..|subparts|] == subparts;
  }

  /** The caser leaves sanitized names, with a number behind them, as they are. */
  ghost predicate Stable(title: TitleCaser) {
    forall p: string, i: nat :: Sanitized(title, Sanitized(title, p) + Decimal(i)) == Sanitized(title, p) + Decimal(i)
  }

  ghost predicate Plain(s: string) {
    '.' !in s && '_' !in s
  }

  /** A name without separators is just title-cased. */
  lemma SanitizedOfPlain(title: TitleCaser, s: string)
    requires Plain(s)
    ensures Sanitized(title, s) == title(s)
  {
    SplitOfPlain(s, '.');
    SplitOfPlain(s, '_');
    assert s != "_" by { assert "_"[0] == '_'; }
    assert [s][..0] == [];
    assert TitleAll(title, [s]) == [] + title(s) == title(s);
  }

  lemma {:induction false} TitlesArePlain(title: TitleCaser, parts: seq<string>)
    requires forall x :: Plain(x) ==> Plain(title(x))
    requires forall i | 0 <= i < |parts| :: Plain(parts[i])
    ensures Plain(TitleAll(title, parts))
  {
    if parts != [] { TitlesArePlain(title, parts[..|parts| - 1]); }
  }

  lemma {:induction false} PartsArePlain(title: TitleCaser, parts: seq<string>)
    requires forall x :: Plain(x) ==> Plain(title(x))
    requires forall i | 0 <= i < |parts| :: '.' !in parts[i]
    ensures Plain(SanitizeParts(title, parts))
  {
    if parts != [] {
      var part := parts[|parts| - 1];
      PartsArePlain(title, parts[..|parts| - 1]);
      SplitRemoves(part, '_', '.');
      TitlesArePlain(title, Split(part, '_'));
    }
  }

  lemma {:induction false} SplitRemoves(s: string, sep: char, other: char)
    ensures forall i | 0 <= i < |Split(s, sep)| :: sep !in Split(s, sep)[i] && (other !in s ==> other !in Split(s, sep)[i])
  {
    if s != [] { SplitRemoves(s[1..], sep, other); }
  }

  /** It is enough that the caser adds no separators and is idempotent on numbered sanitized names. */
  lemma IdempotentCaserIsStable(title: TitleCaser)
    requires forall x :: Plain(x) ==> Plain(title(x))
    requires forall p: string, i: nat :: title(Sanitized(title, p) + Decimal(i)) == Sanitized(title, p) + Decimal(i)
    ensures Stable(title)
  {
    forall p: string, i: nat
      ensures Sanitized(title, Sanitized(title, p) + Decimal(i)) == Sanitized(title, p) + Decimal(i)
    {
      SplitRemoves(p, '.', '.');
      PartsArePlain(title, Split(p, '.'));
      DecimalReads(i);
      SanitizedOfPlain(title, Sanitized(title, p) + Decimal(i));
    }
  }

  predicate StartsWith(s: string, front: string) {
    |front| <= |s| && s[..|front|] == front
  }

  /** Prefixes are "_" for the message itself and "_.a.b" below it. */
  predicate IsPrefix(p: string) {
    p == "_" || StartsWith(p, "_.")
  }

  /** prefixForSubField */
  function SubPrefix(prefix: string, name: string): string {
    prefix + "." + name
  }

  /** typeDefForPrefix */
  function TypeDefFor(title: TitleCaser, prefix: string, root: string): string {
    if prefix == "_" then root else Sanitized(title, prefix)
  }

  lemma SubPrefixIsPrefix(prefix: string, name: string)
    requires IsPrefix(prefix)
    ensures SubPrefix(prefix, name) != "_" && StartsWith(SubPrefix(prefix, name), "_.")
  {
    var s := SubPrefix(prefix, name);
    assert s[..2] == [s[0], s[1]];
  }

  lemma {:induction false} SanitizeFirst(title: TitleCaser, parts: seq<string>)
    requires parts != []
    ensures StartsWith(SanitizeParts(title, parts), SanitizePart(title, parts[0]))
  {
    if |parts| > 1 {
      SanitizeFirst(title, parts[..|parts| - 1]);
    } else {
      assert parts[..0] == [];
    }
  }

  /** Every type definition below a message begins with "Type". */
  lemma TypeDefBegins(title: TitleCaser, prefix: string, root: string)
    requires IsPrefix(prefix) && StartsWith(root, "Type")
    ensures StartsWith(TypeDefFor(title, prefix, root), "Type")
  {
    if prefix != "_" {
      assert prefix == "_" + ['.'] + prefix[2..];
      SplitAtFirst("_", prefix[2..], '.');
      SanitizeFirst(title, Split(prefix, '.'));
    }
  }

  /** A name that cannot be a primitive type, an array type or one of the fixed entries. */
  predicate IsStructName(s: string) {
    StartsWith(s, "Type") && |s| > 4 && IsDigit(s[|s| - 1])
  }

  /** typeDefWithIndex */
  function Indexed(typeDef: string, i: nat): string {
    typeDef + Decimal(i)
  }

  lemma IndexedIsStructName(typeDef: string, i: nat)
    requires StartsWith(typeDef, "Type")
    ensures IsStructName(Indexed(typeDef, i))
  {
    DecimalReads(i);
    var s := Indexed(typeDef, i);
    assert s[..4] == typeDef[..4];
    assert s[|s| - 1] == Decimal(i)[|Decimal(i)| - 1];
  }

  predicate IsArrayType(t: string) {
    |t| >= 2 && t[|t| - 2] == '[' && t[|t| - 1] == ']'
  }

  function Base(t: string): string {
    if IsArrayType(t) then t[..|t| - 2] else t
  }

  lemma ArrayOf(t: string)
    ensures IsArrayType(t + "[]") && Base(t + "[]") == t
  {
    var s := t + "[]";
    assert s[..|s| - 2] == t;
  }

  lemma StructNamesAreDistinct(s: string)
    requires IsStructName(s)
    ensures !IsArrayType(s) && Base(s) == s && s !in PRIMITIVES && s != "Tx"
  {
    assert s[..4] == "Type" && s[0] == s[..4][0] && s[1] == s[..4][1];
  }

  const PRIMITIVES := {"bool", "int64", "string", "uint256"}

  lemma PrimitivesAreNotArrays(t: string)
    requires t in PRIMITIVES
    ensures !IsArrayType(t) && Base(t) == t
  {
    assert "bool"[3] == 'l' && "int64"[4] == '4' && "string"[5] == 'g' && "uint256"[6] == '6';
  }

  // ---------- What it means for a value to have a type ----------

  /** getEthTypeForJSON */
  function Primitive(v: Json): string {
    match v
    case Bool(_) => "bool"
    case Number(_) => "int64"
    case String(_) => "string"
    case _ => ""
  }

  predicate IsList(v: Json) {
    v.Array? && v.elems != []
  }

  /** The value that decides the type: a list's first element. */
  function Inner(v: Json): Json {
    if IsList(v) then v.elems[0] else v
  }

  /** Null, and lists of null or of lists, get no type at all. */
  predicate Typable(v: Json) {
    v == Array([]) || Primitive(Inner(v)) != "" || Inner(v).Object?
  }

  function Reversed(s: seq<string>): seq<string> {
    if s == [] then [] else Reversed(s[1..]) + [s[0]]
  }

  /** The keys in the order sortedJSONKeys gives: descending. */
  ghost function DescendingKeys(v: Json): seq<string>
    requires v.Object?
  {
    Reversed(Sorted(v.fields.Keys))
  }

  function TypableKeys(v: Json, keys: seq<string>): seq<string>
    requires v.Object? && forall i | 0 <= i < |keys| :: keys[i] in v.fields
  {
    if keys == [] then []
    else
      var n := |keys| - 1;
      TypableKeys(v, keys[..n]) + if Typable(v.fields[keys[n]]) then [keys[n]] else []
  }

  function Names(fs: seq<Field>): seq<string> {
    seq(|fs|, i requires 0 <= i < |fs| => fs[i].name)
  }

  lemma {:induction false} ReversedMembers(s: seq<string>, k: string)
    ensures k in Reversed(s) <==> k in s
  {
    if s != [] {
      ReversedMembers(s[1..], k);
      assert s == [s[0]] + s[1..];
    }
  }

  lemma KeysAreFields(v: Json)
    requires v.Object?
    ensures forall i | 0 <= i < |DescendingKeys(v)| :: DescendingKeys(v)[i] in v.fields
  {
    forall i | 0 <= i < |DescendingKeys(v)| ensures DescendingKeys(v)[i] in v.fields {
      var k := DescendingKeys(v)[i];
      ReversedMembers(Sorted(v.fields.Keys), k);
      assert k in Sorted(v.fields.Keys);
    }
  }

  /** Nothing is left out exactly if every value gets a type. */
  lemma {:induction false} TypableKeysAreAll(v: Json, keys: seq<string>)
    requires v.Object? && forall i | 0 <= i < |keys| :: keys[i] in v.fields
    ensures |TypableKeys(v, keys)| <= |keys|
    ensures TypableKeys(v, keys) == keys <==> forall i | 0 <= i < |keys| :: Typable(v.fields[keys[i]])
  {
    if keys != [] {
      hide Typable;
      var n := |keys| - 1;
      TypableKeysAreAll(v, keys[..n]);
      if Typable(v.fields[keys[n]]) {
        SameLast(TypableKeys(v, keys[..n]), keys);
      } else {
        assert |TypableKeys(v, keys)| < |keys|;
      }
    }
  }

  lemma SameLast(a: seq<string>, s: seq<string>)
    requires s != []
    ensures a + [s[|s| - 1]] == s <==> a == s[..|s| - 1]
  {
    if a + [s[|s| - 1]] == s { assert a == s[..|s| - 1]; }
  }

  ghost predicate Descending(s: seq<string>) {
    forall i, j | 0 <= i < j < |s| :: Before(s[j], s[i])
  }

  lemma {:induction false} ReversedAt(s: seq<string>)
    ensures |Reversed(s)| == |s| && forall i | 0 <= i < |s| :: Reversed(s)[i] == s[|s| - 1 - i]
  {
    if s != [] { ReversedAt(s[1..]); }
  }

  lemma {:induction false} TypableKeysDescend(v: Json, keys: seq<string>)
    requires v.Object? && (forall i | 0 <= i < |keys| :: keys[i] in v.fields) && Descending(keys)
    ensures Descending(TypableKeys(v, keys)) && forall k | k in TypableKeys(v, keys) :: k in keys
  {
    if keys != [] {
      hide Before, Typable;
      var n := |keys| - 1;
      TypableKeysDescend(v, keys[..n]);
      var before := TypableKeys(v, keys[..n]);
      forall i | 0 <= i < |before| ensures Before(keys[n], before[i]) {
        assert before[i] in keys[..n];
      }
    }
  }

  lemma {:induction false} AscendingHasNoDuplicates(s: seq<string>, keys: set<string>)
    requires Ascending(s) && Enumerates(s, keys)
    ensures multiset(s) == multiset(keys)
    decreases |s|
  {
    if s == [] {
      assert forall k | k in keys :: k in s;
    } else {
      assert s[0] in keys;
      TailEnumerates(s, keys);
      AscendingHasNoDuplicates(s[1..], keys - {s[0]});
      assert s == [s[0]] + s[1..] && keys == keys - {s[0]} + {s[0]};
    }
  }

  lemma SortedDescends(keys: set<string>)
    ensures Descending(Reversed(Sorted(keys))) && multiset(Reversed(Sorted(keys))) == multiset(keys)
  {
    hide Before;
    ReversedAt(Sorted(keys));
    AscendingHasNoDuplicates(Sorted(keys), keys);
    ReversedKeeps(Sorted(keys));
  }

  /** There is one descending list of a set's elements, each once. */
  lemma DescendingIsUnique(s: seq<string>, keys: set<string>)
    requires Descending(s) && multiset(s) == multiset(keys)
    ensures s == Reversed(Sorted(keys))
  {
    hide Before;
    ReversedAt(s);
    ReversedAt(Sorted(keys));
    EnumeratesReversed(s, keys);
    SortedIsUnique(Reversed(s), Sorted(keys), keys);
    assert forall i | 0 <= i < |s| :: s[i] == Reversed(s)[|s| - 1 - i];
  }

  lemma EnumeratesReversed(s: seq<string>, keys: set<string>)
    requires multiset(s) == multiset(keys)
    ensures Enumerates(Reversed(s), keys)
  {
    forall k ensures k in Reversed(s) <==> k in keys {
      ReversedMembers(s, k);
      assert k in s <==> k in multiset(s);
    }
  }

  lemma {:induction false} ReversedKeeps(s: seq<string>)
    ensures multiset(Reversed(s)) == multiset(s)
  {
    if s != [] {
      ReversedKeeps(s[1..]);
      assert s == [s[0]] + s[1..];
    }
  }

  /**
   A value of an array type is an array of values of its base type; a value of a struct
   type is an object whose keys are the struct's fields, no more and no less, with values
   of the fields' types.
   */
  ghost predicate Conforms(types: Types, t: string, v: Json)
    decreases v, 1
  {
    if IsArrayType(t) then v.Array? && forall i | 0 <= i < |v.elems| :: Conforms(types, Base(t), v.elems[i])
    else if t == "bool" then v.Bool?
    else if t == "int64" then v.Number?
    else if t == "string" then v.String?
    else if t == "uint256" then v.Number?
    else t in types && StructConforms(types, types[t], v)
  }

  ghost predicate StructConforms(types: Types, fs: seq<Field>, v: Json)
    decreases v, 0
  {
    && v.Object?
    && multiset(Names(fs)) == multiset(v.fields.Keys)
    && forall i | 0 <= i < |fs| :: fs[i].name in v.fields && Conforms(types, fs[i].typ, v.fields[fs[i].name])
  }

  ghost predicate Grows(a: Types, b: Types) {
    forall k | k in a :: k in b && b[k] == a[k]
  }

  /** A primitive or defined type, or an array of one. */
  predicate Known(types: Types, t: string) {
    !IsArrayType(Base(t)) && (Base(t) in PRIMITIVES || Base(t) in types)
  }

  /** Every type mentioned is known, as the Definition of encodeType in EIP-712 needs. */
  ghost predicate Closed(types: Types) {
    forall k, i | k in types && 0 <= i < |types[k]| :: Known(types, types[k][i].typ)
  }

  /** In a closed map, what a known type accepts does not change as the map grows. */
  lemma {:induction false} GrowthKeepsMeaning(a: Types, b: Types, t: string, v: Json)
    requires Grows(a, b) && Closed(a) && Known(a, t)
    ensures Conforms(a, t, v) <==> Conforms(b, t, v)
    decreases v
  {
    if IsArrayType(t) {
      if v.Array? {
        forall i | 0 <= i < |v.elems| ensures Conforms(a, Base(t), v.elems[i]) <==> Conforms(b, Base(t), v.elems[i]) {
          GrowthKeepsMeaning(a, b, Base(t), v.elems[i]);
        }
      }
    } else if t !in PRIMITIVES && v.Object? {
      var fs := a[t];
      forall i | 0 <= i < |fs| && fs[i].name in v.fields
        ensures Conforms(a, fs[i].typ, v.fields[fs[i].name]) <==> Conforms(b, fs[i].typ, v.fields[fs[i].name])
      {
        GrowthKeepsMeaning(a, b, fs[i].typ, v.fields[fs[i].name]);
      }
    }
  }

  // ---------- Values that look alike ----------

  /** The object's typable keys, in the order of its type. */
  ghost function TypedKeys(v: Json): seq<string>
    requires v.Object?
  {
    KeysAreFields(v);
    TypableKeys(v, DescendingKeys(v))
  }

  /**
   b looks like a: the same primitive, objects with the same typable keys whose values look
   alike, arrays all of whose elements look like a's first; an empty array passes for an
   array of strings.
   */
  ghost predicate Like(a: Json, b: Json)
    decreases a
  {
    match a
    case Null => false
    case Bool(_) => b.Bool?
    case Number(_) => b.Number?
    case String(_) => b.String?
    case Array(es) =>
      if es == [] then b.Array? && forall i | 0 <= i < |b.elems| :: b.elems[i].String?
      else b.Array? && forall i | 0 <= i < |b.elems| :: Like(es[0], b.elems[i])
    case Object(fs) =>
      && b.Object? && TypedKeys(b) == TypedKeys(a)
      && forall k | k in fs && k in TypedKeys(a) :: k in b.fields && Like(fs[k], b.fields[k])
  }

  /** The value gets a type, and so does everything in it. */
  ghost predicate FullyTypable(v: Json) {
    && Typable(v)
    && match v
       case Array(es) => forall i | 0 <= i < |es| :: FullyTypable(es[i])
       case Object(fs) => forall k | k in fs :: FullyTypable(fs[k])
       case _ => true
  }

  /** The type accepts exactly the values that look like v and hold nothing that gets no type. */
  ghost predicate Exact(types: Types, t: string, v: Json) {
    forall b :: Conforms(types, t, b) <==> Like(v, b) && FullyTypable(b)
  }

  datatype Shape = SNull | SBool | SNumber | SString | SEmpty | SList(of: Shape) | SObject(fields: map<string, Shape>)

  function ShapeOf(v: Json): Shape {
    match v
    case Null => SNull
    case Bool(_) => SBool
    case Number(_) => SNumber
    case String(_) => SString
    case Array(es) => if es == [] then SEmpty else SList(ShapeOf(es[0]))
    case Object(fs) => SObject(map k | k in fs :: ShapeOf(fs[k]))
  }

  /** All elements of every array, at any depth, have one shape. */
  ghost predicate Homogeneous(v: Json) {
    match v
    case Array(es) => forall i | 0 <= i < |es| :: Homogeneous(es[i]) && ShapeOf(es[i]) == ShapeOf(es[0])
    case Object(fs) => forall k | k in fs :: Homogeneous(fs[k])
    case _ => true
  }

  lemma SameShapeSameTypable(a: Json, b: Json)
    requires ShapeOf(a) == ShapeOf(b)
    ensures Typable(a) == Typable(b)
  {
    if IsList(a) {
      assert ShapeOf(a.elems[0]) == ShapeOf(b.elems[0]);
    }
  }

  lemma {:induction false} SameShapeSameKeys(a: Json, b: Json, keys: seq<string>)
    requires a.Object? && b.Object? && ShapeOf(a) == ShapeOf(b)
    requires forall i | 0 <= i < |keys| :: keys[i] in a.fields && keys[i] in b.fields
    ensures TypableKeys(a, keys) == TypableKeys(b, keys)
  {
    if keys != [] {
      var n := |keys| - 1;
      SameShapeSameKeys(a, b, keys[..n]);
      FieldShapes(a, b, keys[n]);
      SameShapeSameTypable(a.fields[keys[n]], b.fields[keys[n]]);
    }
  }

  lemma FieldShapes(a: Json, b: Json, k: string)
    requires a.Object? && b.Object? && ShapeOf(a) == ShapeOf(b)
    ensures a.fields.Keys == b.fields.Keys
    ensures k in a.fields ==> ShapeOf(a.fields[k]) == ShapeOf(b.fields[k])
  {
    assert a.fields.Keys == ShapeOf(a).fields.Keys && b.fields.Keys == ShapeOf(b).fields.Keys;
    if k in a.fields {
      assert ShapeOf(a).fields[k] == ShapeOf(a.fields[k]) && ShapeOf(b).fields[k] == ShapeOf(b.fields[k]);
    }
  }

  lemma {:induction false} TypedKeyIsTypable(v: Json, keys: seq<string>, k: string)
    requires v.Object? && (forall i | 0 <= i < |keys| :: keys[i] in v.fields) && k in TypableKeys(v, keys)
    ensures k in v.fields && Typable(v.fields[k])
  {
    if keys != [] {
      var n := |keys| - 1;
      if k in TypableKeys(v, keys[..n]) { TypedKeyIsTypable(v, keys[..n], k); }
    }
  }

  /** With homogeneous arrays, values of one shape look alike; in particular each looks like itself. */
  lemma {:induction false} SameShapeIsLike(a: Json, b: Json)
    requires ShapeOf(a) == ShapeOf(b) && Homogeneous(a) && Homogeneous(b) && Typable(a)
    ensures Like(a, b)
    decreases a
  {
    match a
    case Array(es) =>
      if es != [] {
        forall i | 0 <= i < |b.elems| ensures Like(es[0], b.elems[i]) {
          SameShapeIsLike(es[0], b.elems[i]);
        }
      }
    case Object(fs) =>
      FieldShapes(a, b, "");
      KeysAreFields(a);
      SameShapeSameKeys(a, b, DescendingKeys(a));
      forall k | k in fs && k in TypedKeys(a) ensures k in b.fields && Like(fs[k], b.fields[k]) {
        TypedKeyIsTypable(a, DescendingKeys(a), k);
        FieldShapes(a, b, k);
        SameShapeIsLike(fs[k], b.fields[k]);
      }
    case _ =>
  }

  // ---------- Inference ----------

  const MAX_DUPLICATES := 1000

  /** addTypesToRoot from duplicate index i on: the first free key, or one that holds the same fields. */
  function AddFrom(types: Types, typeDef: string, fs: seq<Field>, i: nat): Result<(Types, string), Error>
    decreases MAX_DUPLICATES - i
  {
    var key := Indexed(typeDef, i);
    if key in types && types[key] == fs then Ok((types, key))
    else if key !in types then Ok((types[key := fs], key))
    else if i + 1 >= MAX_DUPLICATES then Err(TooManyDuplicates)
    else AddFrom(types, typeDef, fs, i + 1)
  }

  /** Adding never touches an entry that is there, and the returned key holds the fields. */
  lemma {:induction false} AddKeepsEntries(types: Types, typeDef: string, fs: seq<Field>, i: nat)
    requires StartsWith(typeDef, "Type")
    ensures var r := AddFrom(types, typeDef, fs, i);
            r.Ok? ==>
              var (after, key) := r.value;
              && Grows(types, after) && key in after && after[key] == fs && after.Keys == types.Keys + {key}
              && exists j :: i <= j && key == Indexed(typeDef, j)
    decreases MAX_DUPLICATES - i
  {
    if Indexed(typeDef, i) in types && types[Indexed(typeDef, i)] != fs && i + 1 < MAX_DUPLICATES {
      AddKeepsEntries(types, typeDef, fs, i + 1);
    } else {
      assert i <= i && Indexed(typeDef, i) == Indexed(typeDef, i);
    }
  }

  /** The least index from i on whose name is free or holds the same fields. */
  ghost predicate FirstUsable(types: Types, typeDef: string, fs: seq<Field>, i: nat, j: nat) {
    && i <= j < 1000 && !Taken(types, typeDef + Decimal(j), fs)
    && forall k | i <= k < j :: Taken(types, typeDef + Decimal(k), fs)
  }

  /**
   The definition goes under the least index whose name is free or already holds the same
   fields, which is then reused; there is an error exactly if none of the thousand is.
   */
  lemma {:induction false} AddPicksFirst(types: Types, typeDef: string, fs: seq<Field>, i: nat)
    requires i < 1000
    ensures match AddFrom(types, typeDef, fs, i)
            case Err(_) => forall j | i <= j < 1000 :: Taken(types, typeDef + Decimal(j), fs)
            case Ok((after, key)) =>
              && (after == if key in types then types else types[key := fs])
              && exists j :: FirstUsable(types, typeDef, fs, i, j) && key == typeDef + Decimal(j)
    decreases 1000 - i
  {
    var key := Indexed(typeDef, i);
    if Taken(types, key, fs) && i + 1 < 1000 {
      AddPicksFirst(types, typeDef, fs, i + 1);
      var r := AddFrom(types, typeDef, fs, i + 1);
      if r.Ok? {
        var j :| FirstUsable(types, typeDef, fs, i + 1, j) && r.value.1 == typeDef + Decimal(j);
        assert FirstUsable(types, typeDef, fs, i, j);
      }
    } else if !Taken(types, key, fs) {
      assert FirstUsable(types, typeDef, fs, i, i);
    }
  }

  /** The name stands for another definition. */
  predicate Taken(types: Types, name: string, fs: seq<Field>) {
    name in types && types[name] != fs
  }

  /** The types after one object, and the key of its definition. */
  ghost function InferObject(title: TitleCaser, types: Types, root: string, prefix: string, v: Json)
      : Result<(Types, string), Error>
    requires v.Object?
    decreases v, 1
  {
    KeysAreFields(v);
    match InferFields(title, types, root, prefix, v, DescendingKeys(v), [])
    case Err(e) => Err(e)
    case Ok((after, fs)) => AddFrom(after, TypeDefFor(title, prefix, root), fs, 0)
  }

  ghost function InferFields(title: TitleCaser, types: Types, root: string, prefix: string, v: Json,
                             keys: seq<string>, fs: seq<Field>): Result<(Types, seq<Field>), Error>
    requires v.Object? && forall i | 0 <= i < |keys| :: keys[i] in v.fields
    decreases v, 0, |keys|
  {
    if keys == [] then Ok((types, fs))
    else
      match InferField(title, types, root, SubPrefix(prefix, keys[0]), v.fields[keys[0]])
      case Err(e) => Err(e)
      case Ok((after, t)) =>
        InferFields(title, after, root, prefix, v, keys[1..], if t.None? then fs else fs + [Field(keys[0], t.value)])
  }

  /** The type of one field's value, if it gets one. */
  ghost function InferField(title: TitleCaser, types: Types, root: string, prefix: string, v: Json)
      : Result<(Types, Option<string>), Error>
    decreases v, 2
  {
    if v == Array([]) then Ok((types, Some("string[]")))
    else
      var suffix := if IsList(v) then "[]" else "";
      if Primitive(Inner(v)) != "" then Ok((types, Some(Primitive(Inner(v)) + suffix)))
      else if Inner(v).Object? then
        match InferObject(title, types, root, prefix, Inner(v))
        case Err(e) => Err(e)
        case Ok((after, def)) => Ok((after, Some(Sanitized(title, def) + suffix)))
      else Ok((types, None))
  }

  // ---------- Soundness ----------

  /** The entries that never change: all but the list of messages. */
  function Core(types: Types): Types {
    types - {"Tx"}
  }

  /** Everything a message's inference may rely on and must leave. */
  ghost predicate Setting(title: TitleCaser, root: string, prefix: string) {
    Stable(title) && StartsWith(root, "Type") && IsPrefix(prefix)
  }

  /** The inferred type: the map only grew and stayed closed, and the type fits the value exactly. */
  ghost predicate Sound(types: Types, after: Types, t: string, v: Json) {
    && Grows(types, after) && ("Tx" in after ==> "Tx" in types)
    && Closed(Core(after)) && Known(Core(after), t) && Exact(Core(after), t, v)
  }

  lemma CoreGrows(a: Types, b: Types)
    requires Grows(a, b)
    ensures Grows(Core(a), Core(b))
  {
  }

  /** The fields collected so far fit the object: their names are the typable keys seen, their types fit the values. */
  ghost predicate Fit(types: Types, fs: seq<Field>, v: Json, seen: seq<string>)
    requires v.Object? && forall i | 0 <= i < |seen| :: seen[i] in v.fields
  {
    && Names(fs) == TypableKeys(v, seen)
    && forall i | 0 <= i < |fs| ::
         fs[i].name in v.fields && Known(types, fs[i].typ) && Exact(types, fs[i].typ, v.fields[fs[i].name])
  }

  lemma FitGrows(a: Types, b: Types, fs: seq<Field>, v: Json, seen: seq<string>)
    requires v.Object? && (forall i | 0 <= i < |seen| :: seen[i] in v.fields)
    requires Fit(a, fs, v, seen) && Grows(a, b) && Closed(a)
    ensures Fit(b, fs, v, seen)
  {
    forall i | 0 <= i < |fs| ensures Known(b, fs[i].typ) && Exact(b, fs[i].typ, v.fields[fs[i].name]) {
      ExactGrows(a, b, fs[i].typ, v.fields[fs[i].name]);
    }
  }

  lemma ExactGrows(a: Types, b: Types, t: string, v: Json)
    requires Grows(a, b) && Closed(a) && Known(a, t) && Exact(a, t, v)
    ensures Exact(b, t, v)
  {
    forall x ensures Conforms(b, t, x) <==> Like(v, x) && FullyTypable(x) {
      GrowthKeepsMeaning(a, b, t, x);
    }
  }

  lemma FitOneMore(types: Types, fs: seq<Field>, v: Json, seen: seq<string>, k: string, t: Option<string>)
    requires v.Object? && (forall i | 0 <= i < |seen| :: seen[i] in v.fields) && k in v.fields && Fit(types, fs, v, seen)
    requires t.Some? == Typable(v.fields[k])
    requires t.Some? ==> Known(types, t.value) && Exact(types, t.value, v.fields[k])
    ensures Fit(types, if t.None? then fs else fs + [Field(k, t.value)], v, seen + [k])
  {
    hide Exact, Known, Typable;
    assert (seen + [k])[..|seen|] == seen;
    if t.Some? {
      assert Names(fs + [Field(k, t.value)]) == Names(fs) + [k];
    }
  }

  /** A list is typed by its first element. */
  lemma ListIsExact(types: Types, t: string, v: Json)
    requires IsList(v) && Typable(v) && Exact(types, t, v.elems[0])
    ensures Exact(types, t + "[]", v)
  {
    ArrayOf(t);
  }

  lemma PrimitiveIsExact(types: Types, v: Json)
    requires Primitive(v) != ""
    ensures Exact(types, Primitive(v), v) && Primitive(v) in PRIMITIVES && Base(Primitive(v)) == Primitive(v)
  {
    PrimitivesAreNotArrays(Primitive(v));
  }

  /** A struct whose fields fit the object accepts exactly the fully typable objects like it. */
  lemma StructIsExact(types: Types, key: string, v: Json)
    requires v.Object? && key in types && key !in PRIMITIVES && !IsArrayType(key)
    requires (KeysAreFields(v); Fit(types, types[key], v, DescendingKeys(v)))
    ensures Exact(types, key, v)
  {
    hide Fit;
    forall b ensures Conforms(types, key, b) <==> Like(v, b) && FullyTypable(b) {
      if Conforms(types, key, b) { StructAccepts(types, types[key], v, b); }
      if Like(v, b) && FullyTypable(b) { StructTakes(types, types[key], v, b); }
    }
  }

  /** What a fitting struct accepts is fully typable and looks like the object. */
  lemma StructAccepts(types: Types, fs: seq<Field>, v: Json, b: Json)
    requires v.Object? && (KeysAreFields(v); Fit(types, fs, v, DescendingKeys(v))) && StructConforms(types, fs, b)
    ensures Like(v, b) && FullyTypable(b)
  {
    hide Typable, Exact, Known, Before, Reversed, Sorted;
    forall k | k in b.fields
      ensures k in v.fields && Like(v.fields[k], b.fields[k]) && FullyTypable(b.fields[k]) && Typable(b.fields[k])
    {
      FieldIsAccepted(types, fs, v, b, k);
    }
    SameTypedKeys(types, fs, v, b);
    assert Typable(b) by { ObjectIsTypable(b); }
  }

  lemma ObjectIsTypable(v: Json)
    ensures v.Object? ==> Typable(v)
    ensures FullyTypable(v) ==> Typable(v)
  {
  }

  lemma FieldIsAccepted(types: Types, fs: seq<Field>, v: Json, b: Json, k: string)
    requires v.Object? && (KeysAreFields(v); Fit(types, fs, v, DescendingKeys(v)))
    requires StructConforms(types, fs, b) && k in b.fields
    ensures k in v.fields && Like(v.fields[k], b.fields[k]) && FullyTypable(b.fields[k]) && Typable(b.fields[k])
  {
    hide Typable, TypableKeys, Conforms, Like, DescendingKeys;
    assert k in multiset(Names(fs));
    var i :| 0 <= i < |fs| && Names(fs)[i] == k;
    assert Exact(types, fs[i].typ, v.fields[fs[i].name]);
    ObjectIsTypable(b.fields[k]);
  }

  lemma SameTypedKeys(types: Types, fs: seq<Field>, v: Json, b: Json)
    requires v.Object? && b.Object? && (KeysAreFields(v); Fit(types, fs, v, DescendingKeys(v)))
    requires multiset(Names(fs)) == multiset(b.fields.Keys) && forall k | k in b.fields :: Typable(b.fields[k])
    ensures TypedKeys(v) == TypedKeys(b) && forall k | k in TypedKeys(v) :: k in b.fields
  {
    hide Typable, TypableKeys, Exact, Known, Before, Descending, Reversed, Sorted;
    KeysAreFields(v);
    KeysAreFields(b);
    TypableKeysAreAll(b, DescendingKeys(b));
    SortedDescends(v.fields.Keys);
    TypableKeysDescend(v, DescendingKeys(v));
    DescendingIsUnique(TypedKeys(v), b.fields.Keys);
  }

  /** A fitting struct takes every fully typable object like its own. */
  lemma StructTakes(types: Types, fs: seq<Field>, v: Json, b: Json)
    requires v.Object? && (KeysAreFields(v); Fit(types, fs, v, DescendingKeys(v))) && Like(v, b) && FullyTypable(b)
    ensures StructConforms(types, fs, b)
  {
    hide Typable, TypableKeys, Known, Before, Reversed, Sorted;
    KeysAreFields(v);
    KeysAreFields(b);
    forall k | k in b.fields ensures Typable(b.fields[k]) { ObjectIsTypable(b.fields[k]); }
    TypableKeysAreAll(b, DescendingKeys(b));
    SortedDescends(b.fields.Keys);
    forall i | 0 <= i < |fs| ensures fs[i].name in b.fields && Conforms(types, fs[i].typ, b.fields[fs[i].name]) {
      assert Names(fs)[i] == fs[i].name && fs[i].name in TypedKeys(v);
      assert Exact(types, fs[i].typ, v.fields[fs[i].name]);
    }
  }

  /** The definition added for an object is a struct type of exactly the fully typable objects like it. */
  lemma AddedIsSound(types: Types, typeDef: string, fs: seq<Field>, v: Json)
    requires v.Object? && StartsWith(typeDef, "Type") && Closed(Core(types))
    requires (KeysAreFields(v); Fit(Core(types), fs, v, DescendingKeys(v)))
    ensures var r := AddFrom(types, typeDef, fs, 0);
            r.Ok? ==> IsStructName(r.value.1) && Sound(types, r.value.0, r.value.1, v)
                      && exists j: nat :: r.value.1 == Indexed(typeDef, j)
  {
    hide Exact, Conforms, Like;
    KeysAreFields(v);
    AddKeepsEntries(types, typeDef, fs, 0);
    var r := AddFrom(types, typeDef, fs, 0);
    if r.Ok? {
      var (after, key) := r.value;
      var j :| 0 <= j && key == Indexed(typeDef, j);
      IndexedIsStructName(typeDef, j);
      StructNamesAreDistinct(key);
      CoreGrows(types, after);
      FitGrows(Core(types), Core(after), fs, v, DescendingKeys(v));
      AddedStaysClosed(Core(types), Core(after), key, fs);
      StructIsExact(Core(after), key, v);
    }
  }

  lemma AddedStaysClosed(types: Types, after: Types, key: string, fs: seq<Field>)
    requires Grows(types, after) && key in after && after[key] == fs && after.Keys == types.Keys + {key}
    requires Closed(types) && forall i | 0 <= i < |fs| :: Known(after, fs[i].typ)
    ensures Closed(after)
  {
    forall k, i | k in after && 0 <= i < |after[k]| ensures Known(after, after[k][i].typ) {
      if k in types {
        assert Known(types, types[k][i].typ);
      }
    }
  }

  lemma {:induction false} ObjectIsSound(title: TitleCaser, types: Types, root: string, prefix: string, v: Json)
    requires v.Object? && Closed(Core(types)) && Setting(title, root, prefix)
    ensures var r := InferObject(title, types, root, prefix, v);
            r.Ok? ==> IsStructName(r.value.1) && Sound(types, r.value.0, r.value.1, v)
                      && exists j: nat :: r.value.1 == Indexed(TypeDefFor(title, prefix, root), j)
    decreases v, 1
  {
    hide Exact, Closed, Core;
    KeysAreFields(v);
    var keys := DescendingKeys(v);
    assert keys[..0] == [] && keys[0..] == keys;
    FieldsAreSound(title, types, root, prefix, v, keys, 0, []);
    var f := InferFields(title, types, root, prefix, v, keys, []);
    if f.Ok? {
      TypeDefBegins(title, prefix, root);
      AddedIsSound(f.value.0, TypeDefFor(title, prefix, root), f.value.1, v);
    }
  }

  lemma {:induction false} FieldsAreSound(title: TitleCaser, types: Types, root: string, prefix: string, v: Json,
                                          keys: seq<string>, n: nat, fs: seq<Field>)
    requires v.Object? && Closed(Core(types)) && Setting(title, root, prefix)
    requires n <= |keys| && (forall i | 0 <= i < |keys| :: keys[i] in v.fields) && Fit(Core(types), fs, v, keys[..n])
    ensures var r := InferFields(title, types, root, prefix, v, keys[n..], fs);
            r.Ok? ==>
              && Grows(types, r.value.0) && ("Tx" in r.value.0 ==> "Tx" in types)
              && Closed(Core(r.value.0)) && Fit(Core(r.value.0), r.value.1, v, keys)
    decreases v, 0, |keys| - n
  {
    hide Fit, Closed, Exact, Known, Typable, Core, InferField, Stable;
    if n == |keys| {
      assert keys[..n] == keys && keys[n..] == [];
    } else {
      var k := keys[n];
      assert keys[n..][0] == k && keys[n..][1..] == keys[n + 1..] && keys[..n] + [k] == keys[..n + 1];
      SubPrefixIsPrefix(prefix, k);
      FieldIsSound(title, types, root, SubPrefix(prefix, k), v.fields[k]);
      var f := InferField(title, types, root, SubPrefix(prefix, k), v.fields[k]);
      if f.Ok? {
        var (after, t) := f.value;
        CoreGrows(types, after);
        FitGrows(Core(types), Core(after), fs, v, keys[..n]);
        FitOneMore(Core(after), fs, v, keys[..n], k, t);
        FieldsAreSound(title, after, root, prefix, v, keys, n + 1, if t.None? then fs else fs + [Field(k, t.value)]);
      }
    }
  }

  lemma {:induction false} FieldIsSound(title: TitleCaser, types: Types, root: string, prefix: string, v: Json)
    requires Closed(Core(types)) && Setting(title, root, prefix) && prefix != "_"
    ensures var r := InferField(title, types, root, prefix, v);
            r.Ok? ==>
              && Grows(types, r.value.0) && ("Tx" in r.value.0 ==> "Tx" in types) && Closed(Core(r.value.0))
              && (r.value.1.Some? <==> Typable(v))
              && (r.value.1.Some? ==> Sound(types, r.value.0, r.value.1.value, v))
    decreases v, 2
  {
    hide Exact, Closed, Core, InferObject, Like, Conforms, Sanitized, Stable;
    var r := InferField(title, types, root, prefix, v);
    if v == Array([]) {
      EmptyIsExact(Core(types));
    } else if Primitive(Inner(v)) != "" {
      PrimitiveIsExact(Core(types), Inner(v));
      ArrayOf(Primitive(Inner(v)));
      if IsList(v) { ListIsExact(Core(types), Primitive(Inner(v)), v); }
      else { assert Primitive(v) + "" == Primitive(v); }
    } else if Inner(v).Object? && r.Ok? {
      ObjectIsSound(title, types, root, prefix, Inner(v));
      var (after, def) := InferObject(title, types, root, prefix, Inner(v)).value;
      var j: nat :| def == Indexed(Sanitized(title, prefix), j);
      StableName(title, prefix, j);
      StructFieldIsSound(types, after, def, v);
    }
  }

  /** An object's type, or the array of it for a list, is sound for the field. */
  lemma StructFieldIsSound(types: Types, after: Types, def: string, v: Json)
    requires IsStructName(def) && Inner(v).Object? && Sound(types, after, def, Inner(v))
    ensures Sound(types, after, def + if IsList(v) then "[]" else "", v)
  {
    hide Exact, Closed, Core, Like, Conforms;
    StructNamesAreDistinct(def);
    ArrayOf(def);
    if IsList(v) { ListIsExact(Core(after), def, v); }
    else { assert def + "" == def; }
  }

  lemma StableName(title: TitleCaser, prefix: string, j: nat)
    requires Stable(title)
    ensures var def := Indexed(Sanitized(title, prefix), j); Sanitized(title, def) == def
  {
    hide Sanitized;
  }

  /** An empty array is typed as an array of strings. */
  lemma EmptyIsExact(types: Types)
    ensures Exact(types, "string[]", Array([])) && Known(types, "string[]")
  {
    ArrayOf("string");
    assert "string[]" == "string" + "[]";
    PrimitivesAreNotArrays("string");
  }

  // ---------- All messages of a payload ----------

  function BaseTx(): seq<Field> {
    [Field("account_number", "string"), Field("chain_id", "string"), Field("fee", "Fee"), Field("memo", "string"),
     Field("sequence", "string")]
  }

  function BaseTypes(): Types {
    map["EIP712Domain" := [Field("name", "string"), Field("version", "string"), Field("chainId", "uint256"),
                           Field("verifyingContract", "string"), Field("salt", "string")],
        "Tx" := BaseTx(),
        "Fee" := [Field("amount", "Coin[]"), Field("gas", "string")],
        "Coin" := [Field("denom", "string"), Field("amount", "string")]]
  }

  /** msgRootType: the part of the message's type behind the last slash. */
  function RootType(msg: Json): Result<string, Error>
    requires msg.Object?
  {
    if "type" in msg.fields && msg.fields["type"].String? && msg.fields["type"].s != "" then
      var tokens := Split(msg.fields["type"].s, '/');
      Ok("Type" + tokens[|tokens| - 1])
    else Err(NoMessageType)
  }

  function AppendTx(types: Types, field: string, def: string): Types {
    types["Tx" := (if "Tx" in types then types["Tx"] else []) + [Field(field, def)]]
  }

  /** addMsgTypesToRoot */
  ghost function AddMessage(title: TitleCaser, types: Types, field: string, msg: Json): Result<Types, Error> {
    if !msg.Object? then Err(NotAnObject)
    else
      match RootType(msg)
      case Err(e) => Err(e)
      case Ok(root) =>
        match InferObject(title, types, root, "_", msg)
        case Err(e) => Err(e)
        case Ok((after, def)) => Ok(AppendTx(after, field, def))
  }

  /** A missing field reads as a value that is no object. */
  function MessageAt(payload: map<string, Json>, i: nat): Json {
    var field := Eip712Message.MsgField(i);
    if field in payload then payload[field] else Null
  }

  /** createEIP712Types for the first n messages. */
  ghost function Created(title: TitleCaser, payload: map<string, Json>, n: nat): Result<Types, Error> {
    if n == 0 then Ok(BaseTypes())
    else
      match Created(title, payload, n - 1)
      case Err(e) => Err(e)
      case Ok(types) => AddMessage(title, types, Eip712Message.MsgField(n - 1), MessageAt(payload, n - 1))
  }

  /** `Tx` names a defined type for message i, which accepts exactly the fully typable values like that message. */
  ghost predicate MessageTyped(types: Types, payload: map<string, Json>, i: nat) {
    && "Tx" in types && |BaseTx()| + i < |types["Tx"]|
    && var f := types["Tx"][|BaseTx()| + i];
       && f.name == Eip712Message.MsgField(i) && f.typ in Core(types) && Known(Core(types), f.typ)
       && Exact(Core(types), f.typ, MessageAt(payload, i))
  }

  /** Message i is a value of the type that `Tx` names for it. */
  ghost predicate MessageConforms(types: Types, payload: map<string, Json>, i: nat)
    requires MessageTyped(types, payload, i)
  {
    Conforms(Core(types), types["Tx"][|BaseTx()| + i].typ, MessageAt(payload, i))
  }

  ghost predicate AllTyped(types: Types, payload: map<string, Json>, n: nat) {
    && "Tx" in types && |types["Tx"]| == |BaseTx()| + n && BaseTx() <= types["Tx"]
    && (forall i | 0 <= i < n :: MessageTyped(types, payload, i))
    && Closed(Core(types)) && Grows(Core(BaseTypes()), Core(types))
  }

  lemma BaseIsClosed()
    ensures Closed(Core(BaseTypes())) && forall i | 0 <= i < |BaseTx()| :: Known(Core(BaseTypes()), BaseTx()[i].typ)
  {
    var types := BaseTypes();
    assert "Fee" != "Tx" && "Coin" != "Tx" && "Fee" in Core(types) && "Coin" in Core(types);
    ArrayOf("Coin");
    assert "Coin" + "[]" == "Coin[]";
    PrimitivesAreNotArrays("string");
    PrimitivesAreNotArrays("uint256");
    assert "Fee"[2] == 'e' && "Coin"[3] == 'n';
    assert Base("Fee") == "Fee" && Base("Coin[]") == "Coin";
  }

  lemma AppendedIsTyped(before: Types, after: Types, payload: map<string, Json>, n: nat, def: string)
    requires AllTyped(before, payload, n) && Sound(before, after, def, MessageAt(payload, n)) && IsStructName(def)
    ensures AllTyped(AppendTx(after, Eip712Message.MsgField(n), def), payload, n + 1)
  {
    hide Exact, Closed;
    var types := AppendTx(after, Eip712Message.MsgField(n), def);
    assert Core(types) == Core(after);
    CoreGrows(before, after);
    StructNamesAreDistinct(def);
    forall i | 0 <= i < n ensures MessageTyped(types, payload, i) {
      assert MessageTyped(before, payload, i);
      ExactGrows(Core(before), Core(after), before["Tx"][|BaseTx()| + i].typ, MessageAt(payload, i));
    }
  }

  /**
   For every payload: if types are created, `Tx` names for every message a defined type that
   accepts exactly the fully typable values like the message, and the fixed entries other
   than `Tx` are as they were.
   */
  lemma {:induction false} CreatedIsSound(title: TitleCaser, payload: map<string, Json>, n: nat)
    requires Stable(title) && Created(title, payload, n).Ok?
    ensures AllTyped(Created(title, payload, n).value, payload, n)
  {
    if n == 0 {
      BaseIsClosed();
    } else {
      hide Exact, Closed, Core, Stable;
      CreatedIsSound(title, payload, n - 1);
      var before, msg := Created(title, payload, n - 1).value, MessageAt(payload, n - 1);
      var root := RootType(msg).value;
      assert root[..4] == "Type";
      ObjectIsSound(title, before, root, "_", msg);
      var (after, def) := InferObject(title, before, root, "_", msg).value;
      AppendedIsTyped(before, after, payload, n - 1, def);
    }
  }

  /** Message i's type is named after the message: "Type", its type behind the last slash, and a number. */
  ghost predicate Named(types: Types, payload: map<string, Json>, i: nat) {
    && MessageAt(payload, i).Object? && RootType(MessageAt(payload, i)).Ok?
    && "Tx" in types && |BaseTx()| + i < |types["Tx"]|
    && exists j: nat :: types["Tx"][|BaseTx()| + i].typ == Indexed(RootType(MessageAt(payload, i)).value, j)
  }

  lemma {:induction false} CreatedNames(title: TitleCaser, payload: map<string, Json>, n: nat, i: nat)
    requires Stable(title) && Created(title, payload, n).Ok? && i < n
    ensures Named(Created(title, payload, n).value, payload, i)
  {
    hide Exact, Closed, Core, Stable, Known, InferObject, RootType, Indexed, StartsWith;
    CreatedIsSound(title, payload, n - 1);
    var before, msg := Created(title, payload, n - 1).value, MessageAt(payload, n - 1);
    var root := RootType(msg).value;
    RootIsType(msg);
    ObjectIsSound(title, before, root, "_", msg);
    var (after, def) := InferObject(title, before, root, "_", msg).value;
    assert after["Tx"] == before["Tx"];
    if i < n - 1 {
      CreatedNames(title, payload, n - 1, i);
    }
  }

  lemma RootIsType(msg: Json)
    requires msg.Object? && RootType(msg).Ok?
    ensures StartsWith(RootType(msg).value, "Type")
  {
    assert RootType(msg).value[..4] == "Type";
  }

  /**
   A message of type "module/Name", or just "Name", gets the type "TypeName" with a number
   behind it, whatever the module.
   */
  lemma MessageTypeName(title: TitleCaser, payload: map<string, Json>, n: nat, i: nat, area: string, name: string)
    requires Stable(title) && Created(title, payload, n).Ok? && i < n && '/' !in name
    requires var msg := MessageAt(payload, i);
             && msg.Object? && "type" in msg.fields
             && (msg.fields["type"] == String(name) || msg.fields["type"] == String(area + "/" + name))
    ensures var types := Created(title, payload, n).value;
            && "Tx" in types && |BaseTx()| + i < |types["Tx"]|
            && exists j: nat :: types["Tx"][|BaseTx()| + i].typ == "Type" + name + Decimal(j)
  {
    hide Created, Stable;
    CreatedNames(title, payload, n, i);
    SplitOfPlain(name, '/');
    SplitAtLast(area, name, '/');
  }

  // ---------- Names of nested structs ----------

  /** The prefix of the field that these names lead to. */
  function Path(names: seq<string>): string {
    if names == [] then "_" else SubPrefix(Path(names[..|names| - 1]), names[|names| - 1])
  }

  lemma {:induction false} SplitPath(names: seq<string>)
    requires forall i | 0 <= i < |names| :: Plain(names[i])
    ensures Split(Path(names), '.') == ["_"] + names && IsPrefix(Path(names)) && (names != [] ==> Path(names) != "_")
  {
    if names == [] {
      SplitOfPlain("_", '.');
    } else {
      var n := |names| - 1;
      SplitPath(names[..n]);
      SplitAtLast(Path(names[..n]), names[n], '.');
      SubPrefixIsPrefix(Path(names[..n]), names[n]);
      assert names == names[..n] + [names[n]];
      assert "." == ['.'];
    }
  }

  lemma PlainPart(title: TitleCaser, name: string)
    requires Plain(name)
    ensures SanitizePart(title, name) == title(name)
  {
    SplitOfPlain(name, '_');
    assert name != "_" by { assert "_"[0] == '_'; }
    assert [name][..0] == [] && TitleAll(title, [name]) == [] + title(name) == title(name);
  }

  /** A snake-case name loses its underscores, each piece being title-cased. */
  lemma SnakeCasePart(title: TitleCaser, a: string, b: string)
    requires Plain(a) && Plain(b) && a + "_" + b != "_"
    ensures SanitizePart(title, a + "_" + b) == title(a) + title(b)
  {
    hide Split, TitleAll, SanitizeParts;
    assert "_" == ['_'];
    SplitAtLast(a, b, '_');
    SplitOfPlain(a, '_');
    OneMorePart(title, [a], b);
    OneMorePart(title, [], a);
    MessagePart(title);
    assert [] + [a] == [a] && [] + title(a) == title(a);
  }

  lemma OneMorePart(title: TitleCaser, parts: seq<string>, part: string)
    ensures SanitizeParts(title, parts + [part]) == SanitizeParts(title, parts) + SanitizePart(title, part)
    ensures TitleAll(title, parts + [part]) == TitleAll(title, parts) + title(part)
  {
    hide SanitizePart;
    assert (parts + [part])[..|parts|] == parts;
  }

  lemma MessagePart(title: TitleCaser)
    ensures SanitizeParts(title, ["_"]) == "Type" && TitleAll(title, []) == []
  {
    OneMorePart(title, [], "_");
    assert [] + ["_"] == ["_"];
  }

  lemma {:induction false} SanitizeNames(title: TitleCaser, names: seq<string>)
    requires forall i | 0 <= i < |names| :: Plain(names[i])
    ensures SanitizeParts(title, ["_"] + names) == "Type" + TitleAll(title, names)
  {
    hide SanitizePart, SanitizeParts, TitleAll;
    if names == [] {
      MessagePart(title);
      assert ["_"] + names == ["_"] && "Type" + [] == "Type";
    } else {
      var front, last := names[..|names| - 1], names[|names| - 1];
      SanitizeNames(title, front);
      PlainPart(title, last);
      assert names == front + [last];
      ConcatAssociates(["_"], front, [last]);
      OneMorePart(title, ["_"] + front, last);
      OneMorePart(title, front, last);
      ConcatAssociates("Type", TitleAll(title, front), title(last));
    }
  }

  lemma SanitizedPath(title: TitleCaser, names: seq<string>)
    requires forall i | 0 <= i < |names| :: Plain(names[i])
    ensures Sanitized(title, Path(names)) == "Type" + TitleAll(title, names)
  {
    hide SanitizeParts, Path, Split;
    SplitPath(names);
    SanitizeNames(title, names);
  }

  /**
   An object under plain field names gets a type named "Type", the names in title case and
   a number; a list of objects gets the array of it.
   */
  lemma NestedTypeName(title: TitleCaser, types: Types, root: string, names: seq<string>, v: Json)
    requires Stable(title) && Closed(Core(types)) && StartsWith(root, "Type") && names != []
    requires (forall i | 0 <= i < |names| :: Plain(names[i])) && Inner(v).Object?
    requires InferField(title, types, root, Path(names), v).Ok?
    ensures var t := InferField(title, types, root, Path(names), v).value.1;
            && t.Some?
            && exists j: nat :: t.value == "Type" + TitleAll(title, names) + Decimal(j) + if IsList(v) then "[]" else ""
  {
    hide Closed, Core, InferObject, Stable, TitleAll, Sanitized, Path, Sound, IsStructName;
    SplitPath(names);
    SanitizedPath(title, names);
    ObjectIsSound(title, types, root, Path(names), Inner(v));
    var (after, def) := InferObject(title, types, root, Path(names), Inner(v)).value;
    var j: nat :| def == Indexed(Sanitized(title, Path(names)), j);
    StableName(title, Path(names), j);
  }

  /** Every type the created definitions mention, those of the messages included, is defined. */
  lemma CreatedIsClosed(title: TitleCaser, payload: map<string, Json>, n: nat)
    requires Stable(title) && Created(title, payload, n).Ok?
    ensures Closed(Created(title, payload, n).value)
  {
    hide Exact;
    CreatedIsSound(title, payload, n);
    BaseIsClosed();
    var types: Types := Created(title, payload, n).value;
    forall k, i | k in types && 0 <= i < |types[k]| ensures Known(types, types[k][i].typ) {
      if k != "Tx" {
        assert Core(types)[k] == types[k];
      } else if i < |BaseTx()| {
        assert types["Tx"][i] == BaseTx()[i];
      } else {
        assert MessageTyped(types, payload, i - |BaseTx()|);
      }
    }
  }

  /**
   A message conforms to its own type exactly if, at every depth, the elements of its arrays
   look like the first one and nothing is null or a list of nulls or of lists.
   */
  lemma ConformsIff(title: TitleCaser, payload: map<string, Json>, n: nat, i: nat)
    requires Stable(title) && Created(title, payload, n).Ok? && i < n
    ensures MessageTyped(Created(title, payload, n).value, payload, i)
    ensures MessageConforms(Created(title, payload, n).value, payload, i)
            <==> Like(MessageAt(payload, i), MessageAt(payload, i)) && FullyTypable(MessageAt(payload, i))
  {
    CreatedIsSound(title, payload, n);
  }

  /** A message with homogeneous arrays conforms exactly if it is fully typable. */
  lemma HomogeneousConformsIff(title: TitleCaser, payload: map<string, Json>, n: nat, i: nat)
    requires Stable(title) && Created(title, payload, n).Ok? && i < n && Homogeneous(MessageAt(payload, i))
    ensures MessageTyped(Created(title, payload, n).value, payload, i)
    ensures MessageConforms(Created(title, payload, n).value, payload, i) <==> FullyTypable(MessageAt(payload, i))
  {
    ConformsIff(title, payload, n, i);
    CreatedAreObjects(title, payload, n, i);
    SameShapeIsLike(MessageAt(payload, i), MessageAt(payload, i));
  }

  lemma {:induction false} CreatedAreObjects(title: TitleCaser, payload: map<string, Json>, n: nat, i: nat)
    requires Created(title, payload, n).Ok? && i < n
    ensures MessageAt(payload, i).Object?
  {
    hide MessageAt, RootType, InferObject, AppendTx, BaseTypes;
    if i < n - 1 { CreatedAreObjects(title, payload, n - 1, i); }
  }

  /** Fields without objects infer without error and add nothing. */
  lemma {:induction false} FlatFieldsInfer(title: TitleCaser, types: Types, root: string, prefix: string, v: Json,
                                           keys: seq<string>, fs: seq<Field>)
    requires v.Object? && forall i | 0 <= i < |keys| :: keys[i] in v.fields && !Inner(v.fields[keys[i]]).Object?
    ensures var r := InferFields(title, types, root, prefix, v, keys, fs); r.Ok? && r.value.0 == types
    decreases |keys|
  {
    if keys != [] {
      var t := InferField(title, types, root, SubPrefix(prefix, keys[0]), v.fields[keys[0]]).value.1;
      FlatFieldsInfer(title, types, root, prefix, v, keys[1..], if t.None? then fs else fs + [Field(keys[0], t.value)]);
    }
  }

  lemma NotInBase(root: string)
    requires StartsWith(root, "Type")
    ensures Indexed(root, 0) !in BaseTypes()
  {
    assert root[..4][1] == 'y' && Indexed(root, 0)[1] == root[1];
    assert "EIP712Domain"[1] == 'I' && "Tx"[1] == 'x' && "Fee"[1] == 'e' && "Coin"[1] == 'o';
  }

  /** A payload with one message without objects gets its types. */
  lemma FlatMessageInfers(title: TitleCaser, payload: map<string, Json>)
    requires var msg := MessageAt(payload, 0);
             msg.Object? && RootType(msg).Ok? && forall k | k in msg.fields :: !Inner(msg.fields[k]).Object?
    ensures Created(title, payload, 1).Ok?
  {
    hide InferFields, DescendingKeys, RootType, MessageAt, Inner, BaseTypes, Indexed, StartsWith, AppendTx;
    var msg := MessageAt(payload, 0);
    var root := RootType(msg).value;
    KeysAreFields(msg);
    FlatFieldsInfer(title, BaseTypes(), root, "_", msg, DescendingKeys(msg), []);
    RootIsType(msg);
    NotInBase(root);
    assert Created(title, payload, 0) == Ok(BaseTypes());
  }

  /** A message with a null field gets a type without that field, to which it does not conform. */
  lemma NullFieldDoesNotConform(title: TitleCaser)
    requires Stable(title)
    ensures var payload := map[Eip712Message.MsgField(0) := Object(map["type" := String("a/B"), "memo" := Null])];
            && Created(title, payload, 1).Ok? && Homogeneous(MessageAt(payload, 0))
            && MessageTyped(Created(title, payload, 1).value, payload, 0)
            && !MessageConforms(Created(title, payload, 1).value, payload, 0)
  {
    hide Stable, Created, MessageTyped, MessageConforms, Like;
    var msg := Object(map["type" := String("a/B"), "memo" := Null]);
    var payload := map[Eip712Message.MsgField(0) := msg];
    assert "type"[0] != "memo"[0] && |"a/B"| == 3;
    assert msg.fields["type"] == String("a/B") && msg.fields["memo"] == Null && MessageAt(payload, 0) == msg;
    FlatMessageInfers(title, payload);
    assert !Typable(msg.fields["memo"]) && !FullyTypable(msg.fields["memo"]) && !FullyTypable(msg);
    HomogeneousConformsIff(title, payload, 1, 0);
  }

  // ---------- The whole payload ----------

  ghost predicate IsText(payload: map<string, Json>, k: string) {
    k in payload && payload[k].String?
  }

  /** A list of coins and a gas limit. */
  ghost predicate IsFee(v: Json) {
    && v.Object? && v.fields.Keys == {"amount", "gas"} && v.fields["gas"].String? && v.fields["amount"].Array?
    && forall i | 0 <= i < |v.fields["amount"].elems| :: IsCoin(v.fields["amount"].elems[i])
  }

  ghost predicate IsCoin(v: Json) {
    v.Object? && v.fields.Keys == {"denom", "amount"} && v.fields["denom"].String? && v.fields["amount"].String?
  }

  /** A flattened sign document: its fixed fields and n messages. */
  ghost predicate IsSignDoc(payload: map<string, Json>, n: nat) {
    && payload.Keys == {"account_number", "chain_id", "fee", "memo", "sequence"} + MsgFields(n)
    && IsText(payload, "account_number") && IsText(payload, "chain_id") && IsText(payload, "memo")
    && IsText(payload, "sequence") && IsFee(payload["fee"])
  }

  ghost function MsgNames(n: nat): seq<string> {
    seq(n, i requires 0 <= i < n => Eip712Message.MsgField(i))
  }

  ghost function MsgFields(n: nat): set<string> {
    set k | k in MsgNames(n)
  }

  /** A list without repetition is its elements, each once. */
  lemma DistinctIsSet(s: seq<string>, keys: set<string>)
    requires (forall i, j | 0 <= i < j < |s| :: s[i] != s[j]) && (forall k :: k in s <==> k in keys)
    ensures multiset(s) == multiset(keys)
  {
    assert keys == set k | k in s;
    DistinctElements(s);
  }

  lemma FixedStruct(types: Types, t: string, v: Json)
    requires t in {"Tx", "Fee", "Coin", "EIP712Domain"}
    ensures Conforms(types, t, v) <==> t in types && StructConforms(types, types[t], v)
  {
    assert !IsArrayType(t) && t !in PRIMITIVES by {
      assert "Tx"[1] == 'x' && "Fee"[2] == 'e' && "Coin"[3] == 'n' && "EIP712Domain"[11] == 'n';
      assert "Tx"[0] == 'T' && "Fee"[0] == 'F' && "Coin"[0] == 'C' && "EIP712Domain"[0] == 'E';
    }
  }

  lemma TextConforms(types: Types, v: Json)
    ensures Conforms(types, "string", v) <==> v.String?
    ensures Conforms(types, "uint256", v) <==> v.Number?
  {
    PrimitivesAreNotArrays("string");
    PrimitivesAreNotArrays("uint256");
  }

  lemma CoinConforms(types: Types, v: Json)
    requires "Coin" in types && types["Coin"] == BaseTypes()["Coin"] && IsCoin(v)
    ensures Conforms(types, "Coin", v)
  {
    hide Conforms;
    FixedStruct(types, "Coin", v);
    TextConforms(types, v.fields["denom"]);
    TextConforms(types, v.fields["amount"]);
    assert Names(types["Coin"]) == ["denom", "amount"] && "denom"[0] != "amount"[0];
    DistinctIsSet(["denom", "amount"], v.fields.Keys);
  }

  lemma FeeConforms(types: Types, v: Json)
    requires "Coin" in types && types["Coin"] == BaseTypes()["Coin"]
    requires "Fee" in types && types["Fee"] == BaseTypes()["Fee"] && IsFee(v)
    ensures Conforms(types, "Fee", v)
  {
    CoinsConform(types, v.fields["amount"]);
    hide Conforms;
    FixedStruct(types, "Fee", v);
    TextConforms(types, v.fields["gas"]);
    assert Names(types["Fee"]) == ["amount", "gas"] && "amount"[0] != "gas"[0];
    DistinctIsSet(["amount", "gas"], v.fields.Keys);
  }

  lemma CoinsConform(types: Types, v: Json)
    requires "Coin" in types && types["Coin"] == BaseTypes()["Coin"]
    requires v.Array? && forall i | 0 <= i < |v.elems| :: IsCoin(v.elems[i])
    ensures Conforms(types, "Coin[]", v)
  {
    ArrayOf("Coin");
    assert "Coin" + "[]" == "Coin[]";
    forall i | 0 <= i < |v.elems| ensures Conforms(types, "Coin", v.elems[i]) { CoinConforms(types, v.elems[i]); }
  }

  /** The fields of `Tx` are the fixed ones and one per message, without repetition. */
  lemma TxCoversDoc(types: Types, payload: map<string, Json>, n: nat)
    requires AllTyped(types, payload, n) && IsSignDoc(payload, n)
    ensures multiset(Names(types["Tx"])) == multiset(payload.Keys)
  {
    hide Exact, Closed, Known, Core, IsFee;
    var names, base := Names(types["Tx"]), Names(BaseTx());
    forall i | 0 <= i < n ensures types["Tx"][|BaseTx()| + i].name == Eip712Message.MsgField(i) {
      assert MessageTyped(types, payload, i);
    }
    assert forall i | 0 <= i < |BaseTx()| :: types["Tx"][i] == BaseTx()[i];
    assert names == base + MsgNames(n);
    hide AllTyped;
    BaseNamesDiffer();
    AllNamesDiffer(base, n);
    forall k ensures k in names <==> k in payload.Keys {
      assert k in names <==> k in base || k in MsgNames(n);
    }
    DistinctIsSet(names, payload.Keys);
  }

  lemma AllNamesDiffer(base: seq<string>, n: nat)
    requires forall i | 0 <= i < |base| :: |base[i]| > 1 && base[i][1] != 's'
    requires forall i, j | 0 <= i < j < |base| :: base[i] != base[j]
    ensures var names := base + MsgNames(n); forall i, j | 0 <= i < j < |names| :: names[i] != names[j]
  {
    var names, b := base + MsgNames(n), |base|;
    forall i, j | 0 <= i < j < |names| ensures names[i] != names[j] {
      if j >= b {
        assert names[j] == Eip712Message.MsgField(j - b) && names[j][1] == 's';
        if i >= b && names[i] == names[j] {
          assert names[i] == Eip712Message.MsgField(i - b);
          Eip712Message.MsgFieldIsInjective(i - b, j - b);
        }
      }
    }
  }

  lemma BaseNamesDiffer()
    ensures Names(BaseTx()) == ["account_number", "chain_id", "fee", "memo", "sequence"]
    ensures forall i, j | 0 <= i < j < 5 :: Names(BaseTx())[i] != Names(BaseTx())[j]
    ensures forall i | 0 <= i < 5 :: |Names(BaseTx())[i]| > 1 && Names(BaseTx())[i][1] != 's'
  {
    assert "account_number"[0] == 'a' && "chain_id"[0] == 'c' && "fee"[0] == 'f' && "memo"[0] == 'm' && "sequence"[0] == 's';
  }

  /** A flattened sign document is a value of the created `Tx` type exactly if each of its messages conforms. */
  lemma SignDocConformsIff(title: TitleCaser, payload: map<string, Json>, n: nat)
    requires Stable(title) && Created(title, payload, n).Ok? && IsSignDoc(payload, n)
    ensures var types := Created(title, payload, n).value;
            && (forall i | 0 <= i < n :: MessageTyped(types, payload, i))
            && (Conforms(types, "Tx", Object(payload)) <==> forall i | 0 <= i < n :: MessageConforms(types, payload, i))
  {
    hide Stable, Created, Exact;
    CreatedIsSound(title, payload, n);
    var types: Types := Created(title, payload, n).value;
    TxCoversDoc(types, payload, n);
    FixedStruct(types, "Tx", Object(payload));
    FixedFieldsConform(types, payload, n);
    forall i | 0 <= i < n
      ensures MessageTyped(types, payload, i)
              && (MsgFieldConforms(types, payload, i) <==> MessageConforms(types, payload, i))
    {
      MessageFieldConforms(types, payload, n, i);
    }
    TxFieldsSplit(types, payload, n);
    hide Conforms;
    assert Conforms(types, "Tx", Object(payload)) <==>
           forall i | 0 <= i < |types["Tx"]| :: FieldConforms(types, types["Tx"][i], payload);
  }

  lemma MessageFieldConforms(types: Types, payload: map<string, Json>, n: nat, i: nat)
    requires AllTyped(types, payload, n) && IsSignDoc(payload, n) && i < n
    ensures MessageTyped(types, payload, i)
    ensures var f := types["Tx"][|BaseTx()| + i];
            && f.name in payload && (Conforms(types, f.typ, payload[f.name]) <==> MessageConforms(types, payload, i))
  {
    hide Exact, Conforms, IsFee;
    assert MessageTyped(types, payload, i);
    assert MsgNames(n)[i] in MsgFields(n);
    GrowthKeepsMeaning(Core(types), types, types["Tx"][|BaseTx()| + i].typ, MessageAt(payload, i));
  }

  ghost predicate FieldConforms(types: Types, f: Field, payload: map<string, Json>) {
    f.name in payload && Conforms(types, f.typ, payload[f.name])
  }

  lemma FixedFieldsConform(types: Types, payload: map<string, Json>, n: nat)
    requires AllTyped(types, payload, n) && IsSignDoc(payload, n)
    ensures forall i | 0 <= i < |BaseTx()| :: types["Tx"][i] == BaseTx()[i] && FieldConforms(types, BaseTx()[i], payload)
  {
    hide Exact, Conforms, Closed, IsFee;
    assert "Fee" != "Tx" && "Coin" != "Tx" by { assert "Fee"[0] != "Tx"[0] && "Coin"[0] != "Tx"[0]; }
    assert "Fee" in Core(BaseTypes()) && "Coin" in Core(BaseTypes());
    FeeConforms(types, payload["fee"]);
    TextConforms(types, payload["account_number"]);
    TextConforms(types, payload["chain_id"]);
    TextConforms(types, payload["memo"]);
    TextConforms(types, payload["sequence"]);
  }

  ghost predicate MsgFieldConforms(types: Types, payload: map<string, Json>, i: nat) {
    "Tx" in types && |BaseTx()| + i < |types["Tx"]| && FieldConforms(types, types["Tx"][|BaseTx()| + i], payload)
  }

  /** All fields of `Tx` conform exactly if those of the messages do, the fixed ones conforming anyway. */
  lemma TxFieldsSplit(types: Types, payload: map<string, Json>, n: nat)
    requires "Tx" in types && |types["Tx"]| == |BaseTx()| + n
    requires forall i | 0 <= i < |BaseTx()| :: FieldConforms(types, types["Tx"][i], payload)
    ensures (forall i | 0 <= i < |types["Tx"]| :: FieldConforms(types, types["Tx"][i], payload))
            <==> forall i | 0 <= i < n :: MsgFieldConforms(types, payload, i)
  {
    hide FieldConforms;
    if forall i | 0 <= i < n :: MsgFieldConforms(types, payload, i) {
      forall i | 0 <= i < |types["Tx"]| ensures FieldConforms(types, types["Tx"][i], payload) {
        if i >= |BaseTx()| { assert MsgFieldConforms(types, payload, i - |BaseTx()|); }
      }
    }
  }

  /** A domain with a number for the chain and texts for the rest is a value of the created domain type. */
  lemma DomainConforms(title: TitleCaser, payload: map<string, Json>, n: nat, domain: Json)
    requires Stable(title) && Created(title, payload, n).Ok? && IsDomain(domain)
    ensures Conforms(Created(title, payload, n).value, "EIP712Domain", domain)
  {
    hide Stable, Created, Exact, Conforms, Closed, MessageTyped, IsDomain;
    CreatedIsSound(title, payload, n);
    assert "EIP712Domain" != "Tx" by { assert "EIP712Domain"[0] != "Tx"[0]; }
    assert "EIP712Domain" in Core(BaseTypes());
    DomainIsStruct(Created(title, payload, n).value, domain);
  }

  ghost predicate IsDomain(v: Json) {
    && v.Object? && v.fields.Keys == {"name", "version", "chainId", "verifyingContract", "salt"}
    && v.fields["chainId"].Number? && v.fields["name"].String? && v.fields["version"].String?
    && v.fields["verifyingContract"].String? && v.fields["salt"].String?
  }

  const DOMAIN_NAMES := ["name", "version", "chainId", "verifyingContract", "salt"]

  lemma DomainNamesDiffer(keys: set<string>)
    requires keys == {"name", "version", "chainId", "verifyingContract", "salt"}
    ensures multiset(DOMAIN_NAMES) == multiset(keys)
  {
    assert |"name"| == 4 && |"version"| == 7 && |"chainId"| == 7 && |"verifyingContract"| == 17 && |"salt"| == 4;
    assert "name"[0] == 'n' && "salt"[0] == 's' && "version"[0] == 'v' && "chainId"[0] == 'c';
    DistinctIsSet(DOMAIN_NAMES, keys);
  }

  lemma DomainIsStruct(types: Types, v: Json)
    requires "EIP712Domain" in types && types["EIP712Domain"] == BaseTypes()["EIP712Domain"] && IsDomain(v)
    ensures Conforms(types, "EIP712Domain", v)
  {
    hide Conforms;
    FixedStruct(types, "EIP712Domain", v);
    DomainNamesDiffer(v.fields.Keys);
    var fs := types["EIP712Domain"];
    assert Names(fs) == DOMAIN_NAMES;
    forall i | 0 <= i < |fs| ensures fs[i].name in v.fields && Conforms(types, fs[i].typ, v.fields[fs[i].name]) {
      DomainField(types, v, fs[i]);
    }
  }

  lemma DomainField(types: Types, v: Json, f: Field)
    requires IsDomain(v) && f in BaseTypes()["EIP712Domain"]
    ensures f.name in v.fields && Conforms(types, f.typ, v.fields[f.name])
  {
    hide Conforms;
    assert f.name in v.fields.Keys;
    TextConforms(types, v.fields[f.name]);
  }

  /** A mixed array is typed by its first element all the same, and does not conform. */
  lemma MixedArrayDoesNotConform(title: TitleCaser, types: Types, root: string, prefix: string)
    ensures var v := Array([Number(1), String("a")]);
            && InferField(title, types, root, prefix, v) == Ok((types, Some("int64[]")))
            && !Conforms(types, "int64[]", v)
  {
    var v := Array([Number(1), String("a")]);
    assert "int64" + "[]" == "int64[]";
    ArrayOf("int64");
    PrimitivesAreNotArrays("int64");
    assert !Conforms(types, "int64", v.elems[1]);
  }

  // ---------- The implementation ----------

  /** sortedJSONKeys: the map's keys come in any order, the result does not depend on it. */
  method SortedJsonKeys(v: Json) returns (keys: seq<string>)
    requires v.Object?
    ensures keys == DescendingKeys(v)
  {
    var ascending := SortKeys(v.fields.Keys);
    keys := Reversed(ascending);
  }

  class TypeMap {
    var types: Types

    constructor ()
      ensures types == BaseTypes()
    {
      types := BaseTypes();
    }

    /** addTypesToRoot */
    method AddTypesToRoot(typeDef: string, fs: seq<Field>) returns (r: Result<string, Error>)
      modifies this
      ensures match AddFrom(old(types), typeDef, fs, 0)
              case Ok((after, key)) => r == Ok(key) && types == after
              case Err(e) => r == Err(e) && types == old(types)
      ensures Grows(old(types), types)
    {
      var index := 0;
      while true
        invariant 0 <= index < MAX_DUPLICATES && types == old(types)
        invariant AddFrom(types, typeDef, fs, index) == AddFrom(types, typeDef, fs, 0)
        decreases MAX_DUPLICATES - index
      {
        var key := Indexed(typeDef, index);
        if key in types && types[key] == fs {
          return Ok(key);
        }
        if key !in types {
          types := types[key := fs];
          return Ok(key);
        }
        index := index + 1;
        if index == MAX_DUPLICATES {
          return Err(TooManyDuplicates);
        }
      }
    }

    /** recursivelyAddTypesToRoot */
    method RecursivelyAddTypesToRoot(title: TitleCaser, root: string, prefix: string, v: Json)
        returns (r: Result<string, Error>)
      requires v.Object?
      modifies this
      ensures match InferObject(title, old(types), root, prefix, v)
              case Ok((after, key)) => r == Ok(key) && types == after
              case Err(e) => r == Err(e)
      ensures Grows(old(types), types)
      decreases v, 0
    {
      var typesToAdd: seq<Field> := [];
      KeysAreFields(v);
      var keys := SortedJsonKeys(v);
      ghost var start := types;
      var i := 0;
      assert keys[0..] == keys;
      while i < |keys|
        invariant 0 <= i <= |keys| && Grows(start, types)
        invariant InferFields(title, types, root, prefix, v, keys[i..], typesToAdd) ==
                  InferFields(title, start, root, prefix, v, keys, [])
      {
        assert keys[i..][0] == keys[i] && keys[i..][1..] == keys[i + 1..];
        var t := AddField(title, root, SubPrefix(prefix, keys[i]), v.fields[keys[i]]);
        if t.Err? {
          return Err(t.error);
        }
        if t.value.Some? {
          typesToAdd := typesToAdd + [Field(keys[i], t.value.value)];
        }
        i := i + 1;
      }
      assert keys[i..] == [];
      r := AddTypesToRoot(TypeDefFor(title, prefix, root), typesToAdd);
    }

    /** The body of the loop over the fields. */
    method AddField(title: TitleCaser, root: string, prefix: string, v: Json) returns (r: Result<Option<string>, Error>)
      modifies this
      ensures match InferField(title, old(types), root, prefix, v)
              case Ok((after, t)) => r == Ok(t) && types == after
              case Err(e) => r == Err(e)
      ensures Grows(old(types), types)
      decreases v, 1
    {
      var field, suffix := v, "";
      if v.Array? {
        if |v.elems| == 0 {
          return Ok(Some("string[]"));
        }
        field, suffix := v.elems[0], "[]";
      }
      var ethType := Primitive(field);
      if ethType != "" {
        return Ok(Some(ethType + suffix));
      }
      if field.Object? {
        var def := RecursivelyAddTypesToRoot(title, root, prefix, field);
        if def.Err? {
          return Err(def.error);
        }
        var name := SanitizeTypedef(title, def.value);
        return Ok(Some(name + suffix));
      }
      return Ok(None);
    }
  }

  /** createEIP712Types: deterministic, whatever order the JSON maps are walked in. */
  method CreateEip712Types(title: TitleCaser, payload: map<string, Json>, numMsgs: nat) returns (r: Result<Types, Error>)
    ensures r == Created(title, payload, numMsgs)
  {
    var m := new TypeMap();
    for i := 0 to numMsgs
      invariant Created(title, payload, i) == Ok(m.types)
    {
      var msg := MessageAt(payload, i);
      CreatedFails(title, payload, i + 1, numMsgs);
      if !msg.Object? {
        return Err(NotAnObject);
      }
      var root := RootType(msg);
      if root.Err? {
        return Err(root.error);
      }
      var def := m.RecursivelyAddTypesToRoot(title, root.value, "_", msg);
      if def.Err? {
        return Err(def.error);
      }
      m.types := AppendTx(m.types, Eip712Message.MsgField(i), def.value);
    }
    return Ok(m.types);
  }

  /** The first message that is no object, has no type text, or does not fit is an error of that kind. */
  lemma FailureSays(title: TitleCaser, payload: map<string, Json>, n: nat)
    requires Created(title, payload, n).Ok?
    ensures var r, msg := Created(title, payload, n + 1), MessageAt(payload, n);
            && (r == Err(NotAnObject) <==> !msg.Object?)
            && (r == Err(NoMessageType) <==>
                  msg.Object? && !("type" in msg.fields && msg.fields["type"].String? && msg.fields["type"].s != ""))
  {
    var msg := MessageAt(payload, n);
    if msg.Object? && RootType(msg).Ok? {
      InferErrors(title, Created(title, payload, n).value, RootType(msg).value, "_", msg);
    }
  }

  /** Inference fails in one way only: too many definitions of one name. */
  lemma {:induction false} InferErrors(title: TitleCaser, types: Types, root: string, prefix: string, v: Json)
    requires v.Object?
    ensures var r := InferObject(title, types, root, prefix, v); r.Err? ==> r.error == TooManyDuplicates
    decreases v, 1
  {
    KeysAreFields(v);
    FieldErrors(title, types, root, prefix, v, DescendingKeys(v), []);
    var f := InferFields(title, types, root, prefix, v, DescendingKeys(v), []);
    if f.Ok? { AddErrors(f.value.0, TypeDefFor(title, prefix, root), f.value.1, 0); }
  }

  lemma {:induction false} AddErrors(types: Types, typeDef: string, fs: seq<Field>, i: nat)
    ensures var r := AddFrom(types, typeDef, fs, i); r.Err? ==> r.error == TooManyDuplicates
    decreases MAX_DUPLICATES - i
  {
    if i + 1 < MAX_DUPLICATES { AddErrors(types, typeDef, fs, i + 1); }
  }

  lemma {:induction false} FieldErrors(title: TitleCaser, types: Types, root: string, prefix: string, v: Json,
                                       keys: seq<string>, fs: seq<Field>)
    requires v.Object? && forall i | 0 <= i < |keys| :: keys[i] in v.fields
    ensures var r := InferFields(title, types, root, prefix, v, keys, fs); r.Err? ==> r.error == TooManyDuplicates
    decreases v, 0, |keys|
  {
    if keys != [] {
      var x, p := v.fields[keys[0]], SubPrefix(prefix, keys[0]);
      if Inner(x).Object? { InferErrors(title, types, root, p, Inner(x)); }
      var f := InferField(title, types, root, p, x);
      if f.Ok? {
        var (after, t) := f.value;
        FieldErrors(title, after, root, prefix, v, keys[1..], if t.None? then fs else fs + [Field(keys[0], t.value)]);
      }
    }
  }

  /** The first failing message decides the error. */
  lemma {:induction false} CreatedFails(title: TitleCaser, payload: map<string, Json>, i: nat, n: nat)
    requires i <= n
    ensures Created(title, payload, i).Err? ==> Created(title, payload, n) == Created(title, payload, i)
  {
    if i < n {
      CreatedFails(title, payload, i, n - 1);
    }
  }
}
