/**
 * type_to_gtype of tools/libglibcodegen.py: the GLib binding of a D-Bus type, found by case analysis on the
 * text of the type, with the signature iterator cutting the inside of a struct into its fields.
 *
 * The text-driven translation is related to one by structural recursion on the type itself: they agree on
 * every well-formed type, and the translation fails exactly outside an explicit grammar.
 */
module GTypes {
  import opened Wrappers
  import opened Signatures

  datatype GType = GType(cType: string, gType: string, marshal: string, isPointer: bool)

  // ----- The tables -----

  function BasicGType(code: char): Option<GType> {
    match code
    case 'y' => Some(GType("guchar ", "G_TYPE_UCHAR", "UCHAR", false))
    case 'b' => Some(GType("gboolean ", "G_TYPE_BOOLEAN", "BOOLEAN", false))
    case 'n' => Some(GType("gint ", "G_TYPE_INT", "INT", false))
    case 'q' => Some(GType("guint ", "G_TYPE_UINT", "UINT", false))
    case 'i' => Some(GType("gint ", "G_TYPE_INT", "INT", false))
    case 'u' => Some(GType("guint ", "G_TYPE_UINT", "UINT", false))
    case 'x' => Some(GType("gint64 ", "G_TYPE_INT64", "INT64", false))
    case 't' => Some(GType("guint64 ", "G_TYPE_UINT64", "UINT64", false))
    case 'd' => Some(GType("gdouble ", "G_TYPE_DOUBLE", "DOUBLE", false))
    case 's' => Some(GType("gchar *", "G_TYPE_STRING", "STRING", true))
    case 'g' => Some(GType("gchar *", "DBUS_TYPE_G_SIGNATURE", "STRING", true))
    case 'o' => Some(GType("gchar *", "DBUS_TYPE_G_OBJECT_PATH", "BOXED", true))
    case 'v' => Some(GType("GValue *", "G_TYPE_VALUE", "BOXED", true))
    case _ => None
  }

  /** Arrays of a basic type that have a binding of their own. */
  function ArrayGType(code: char): Option<GType> {
    match code
    case 's' => Some(GType("gchar **", "G_TYPE_STRV", "BOXED", true))
    case 'y' => Some(GType("GArray *", "dbus_g_type_get_collection (\"GArray\", G_TYPE_UCHAR)", "BOXED", true))
    case 'u' => Some(GType("GArray *", "DBUS_TYPE_G_UINT_ARRAY", "BOXED", true))
    case 'i' => Some(GType("GArray *", "DBUS_TYPE_G_INT_ARRAY", "BOXED", true))
    case 'x' => Some(GType("GArray *", "DBUS_TYPE_G_INT64_ARRAY", "BOXED", true))
    case 't' => Some(GType("GArray *", "DBUS_TYPE_G_UINT64_ARRAY", "BOXED", true))
    case 'd' => Some(GType("GArray *", "DBUS_TYPE_G_DOUBLE_ARRAY", "BOXED", true))
    case 'b' => Some(GType("GArray *", "DBUS_TYPE_G_BOOLEAN_ARRAY", "BOXED", true))
    case 'o' => Some(GType("GPtrArray *", "dbus_g_type_get_collection (\"GPtrArray\", DBUS_TYPE_G_OBJECT_PATH)",
                           "BOXED", true))
    case _ => None
  }

  const STRING_STRING_TABLE := GType("GHashTable *", "DBUS_TYPE_G_STRING_STRING_HASHTABLE", "BOXED", false)

  predicate IsTableKey(c: char) {
    c in {'y', 'b', 'n', 'q', 'i', 'u', 's', 'o', 'g'}
  }

  // A failure to translate a part, None, is a failure to translate the whole.

  function TableOf(key: Option<GType>, value: Option<GType>): Option<GType> {
    if key.None? || value.None? then None
    else Some(GType("GHashTable *",
                    "(dbus_g_type_get_map (\"GHashTable\", " + key.value.gType + ", " + value.value.gType + "))",
                    "BOXED", false))
  }

  function CollectionOf(elem: Option<GType>): Option<GType> {
    if elem.None? then None
    else Some(GType("GPtrArray *", "(dbus_g_type_get_collection (\"GPtrArray\", " + elem.value.gType + "))",
                    "BOXED", true))
  }

  function StructOf(fields: Option<string>): Option<GType> {
    if fields.None? then None
    else Some(GType("GValueArray *", "(dbus_g_type_get_struct (\"GValueArray\", " + fields.value + "G_TYPE_INVALID))",
                    "BOXED", true))
  }

  // ----- The translation, driven by the text -----

  predicate Begins(s: string, c: char, d: char) {
    |s| >= 2 && s[0] == c && s[1] == d
  }

  /** s == "a{ss}" */
  predicate IsStringTable(s: string) {
    |s| == 5 && Begins(s, 'a', '{') && s[2] == 's' && s[3] == 's' && s[4] == '}'
  }

  /** Python's s[k:-1]. */
  function Inside(s: string, k: nat): (r: string)
    ensures s != "" ==> |r| < |s|
  {
    if k + 1 <= |s| then s[k..|s| - 1] else ""
  }

  /** Which case of the analysis a text falls into. */
  datatype Shape = BasicText | BasicArrayText | StringTableText | TableText | CollectionText | StructText | OtherText

  ghost function ShapeOf(s: string): (shape: Shape)
    ensures shape.BasicText? ==> |s| == 1
    ensures shape.BasicArrayText? || shape.CollectionText? ==> |s| >= 2
    ensures shape.TableText? ==> |s| > 2
    ensures shape.StructText? ==> s != ""
  {
    if |s| == 1 && BasicGType(s[0]).Some? then BasicText
    else if |s| == 2 && s[0] == 'a' && ArrayGType(s[1]).Some? then BasicArrayText
    else if IsStringTable(s) then StringTableText
    else if Begins(s, 'a', '{') then
      if |s| == 2 || !IsTableKey(s[2]) then OtherText else TableText
    else if Begins(s, 'a', '(') || Begins(s, 'a', 'a') then CollectionText
    else if |s| >= 1 && s[0] == '(' then StructText
    else OtherText
  }

  ghost function Translate(s: string): Option<GType>
    decreases |s|, 1
  {
    match ShapeOf(s)
    case BasicText => BasicGType(s[0])
    case BasicArrayText => ArrayGType(s[1])
    case StringTableText => Some(STRING_STRING_TABLE)
    case TableText => TableOf(BasicGType(s[2]), Translate(Inside(s, 3)))
    case CollectionText => CollectionOf(Translate(s[1..]))
    case StructText => StructOf(TranslateInside(Inside(s, 1)))
    case OtherText => None
  }

  /** The translations of the fields of a struct, each followed by a comma. */
  ghost function TranslateInside(s: string): Option<string>
    decreases |s|, 3
  {
    PiecesAreShort(s);
    TranslateFields(Pieces(s), |s|)
  }

  ghost function TranslateFields(pieces: seq<string>, bound: nat): Option<string>
    requires forall p | p in pieces :: |p| <= bound
    decreases bound, 2, |pieces|
  {
    if pieces == [] then Some("")
    else
      match (Translate(pieces[0]), TranslateFields(pieces[1..], bound))
      case (Some(first), Some(others)) => Some(first.gType + ", " + others)
      case _ => None
  }

  lemma {:induction false} PiecesAreShort(s: string)
    ensures forall p | p in Pieces(s) :: |p| <= |s|
  {
    if s != "" {
      PiecesAreShort(s[Scan(s, Fresh)..]);
    }
  }

  // ----- The translation, as the generator computes it -----

  /** None stands for the exception the generator raises. */
  method TypeToGType(s: string) returns (r: Option<GType>)
    ensures r == Translate(s)
    decreases |s|, 0
  {
    if |s| == 1 && BasicGType(s[0]).Some? {
      return BasicGType(s[0]);
    } else if |s| == 2 && s[0] == 'a' && ArrayGType(s[1]).Some? {
      return ArrayGType(s[1]);
    } else if IsStringTable(s) {
      return Some(STRING_STRING_TABLE);
    } else if Begins(s, 'a', '{') {
      if |s| == 2 || !IsTableKey(s[2]) {
        return None;
      }
      var first := TypeToGType([s[2]]);
      var second := TypeToGType(Inside(s, 3));
      return TableOf(first, second);
    } else if Begins(s, 'a', '(') || Begins(s, 'a', 'a') {
      var elem := TypeToGType(s[1..]);
      return CollectionOf(elem);
    } else if |s| >= 1 && s[0] == '(' {
      var fields := FieldsToGType(Inside(s, 1));
      return StructOf(fields);
    } else {
      return None;
    }
  }

  /** The loop over the fields of a struct. */
  method FieldsToGType(s: string) returns (r: Option<string>)
    ensures r == TranslateInside(s)
    decreases |s|, 1
  {
    var fields := "";
    var pieces := Iterate(s);
    PiecesAreShort(s);
    PrefixNothing(TranslateInside(s));
    while pieces != []
      invariant forall p | p in pieces :: |p| <= |s|
      invariant TranslateInside(s) == Prefixed(fields, TranslateFields(pieces, |s|))
      decreases |pieces|
    {
      PrefixStep(fields, pieces, |s|);
      var field := TypeToGType(pieces[0]);
      if field.None? {
        return None;
      }
      fields := fields + field.value.gType + ", ";
      pieces := pieces[1..];
    }
    PrefixEnd(fields, |s|);
    r := Some(fields);
  }

  ghost function Prefixed(s: string, fields: Option<string>): Option<string> {
    match fields
    case Some(f) => Some(s + f)
    case None => None
  }

  lemma PrefixNothing(fields: Option<string>)
    ensures Prefixed("", fields) == fields
  {
    if fields.Some? {
      assert "" + fields.value == fields.value;
    }
  }

  lemma PrefixEnd(s: string, bound: nat)
    ensures Prefixed(s, TranslateFields([], bound)) == Some(s)
  {
    assert s + "" == s;
  }

  lemma PrefixStep(s: string, pieces: seq<string>, bound: nat)
    requires pieces != [] && forall p | p in pieces :: |p| <= bound
    ensures Prefixed(s, TranslateFields(pieces, bound)) ==
            match Translate(pieces[0])
            case Some(first) => Prefixed(s + first.gType + ", ", TranslateFields(pieces[1..], bound))
            case None => None
  {
    var first, others := Translate(pieces[0]), TranslateFields(pieces[1..], bound);
    if first.Some? && others.Some? {
      Regroup(s, first.value.gType, ", ", others.value);
    }
  }

  lemma Regroup(a: string, b: string, c: string, d: string)
    ensures a + (b + c + d) == a + b + c + d
  {
  }

  // ----- The translation, by structural recursion on the type -----

  ghost function Denote(t: Type): Option<GType>
    decreases t, 1
  {
    match t
    case Basic(code) => BasicGType(code)
    case Array(Basic(code)) => ArrayGType(code)
    case Array(DictEntry(key, value)) =>
      if !key.Basic? || !IsTableKey(key.code) then None
      else if key.code == 's' && value == Basic('s') then Some(STRING_STRING_TABLE)
      else
        TableOf(BasicGType(key.code), Denote(value))
    case Array(elem) => CollectionOf(Denote(elem))
    case DictEntry(_, _) => None
    case Struct(fields) => StructOf(DenoteFields(fields))
  }

  ghost function DenoteFields(fields: seq<Type>): Option<string>
    decreases fields, 0
  {
    if fields == [] then Some("")
    else
      match (Denote(fields[0]), DenoteFields(fields[1..]))
      case (Some(first), Some(others)) => Some(first.gType + ", " + others)
      case _ => None
  }

  /** The types that have a binding. */
  ghost predicate Supported(t: Type) {
    match t
    case Basic(code) => BasicGType(code).Some?
    case Array(Basic(code)) => ArrayGType(code).Some?
    case Array(DictEntry(key, value)) => key.Basic? && IsTableKey(key.code) && Supported(value)
    case Array(elem) => Supported(elem)
    case DictEntry(_, _) => false
    case Struct(fields) => forall f | f in fields :: Supported(f)
  }

  // ----- They agree -----

  /** On the text of a type, the text-driven translation is the structural one. */
  lemma {:induction false} TranslateIsDenote(t: Type)
    requires WellFormed(t)
    ensures Translate(Render(t)) == Denote(t)
    decreases t, 1
  {
    RenderNonEmpty(t);
    match t {
      case Basic(code) =>
        assert ShapeOf(Render(t)).BasicText? <==> BasicGType(code).Some?;
      case Array(elem) =>
        TranslateArrayIsDenote(elem);
      case DictEntry(key, value) =>
        RenderNonEmpty(key);
        assert ShapeOf(Render(t)).OtherText?;
      case Struct(fields) =>
        TranslateInsideIsDenote(fields);
        assert ShapeOf(Render(t)).StructText?;
        assert Inside(Render(t), 1) == RenderAll(fields);
    }
  }

  lemma {:induction false} TranslateArrayIsDenote(elem: Type)
    requires WellFormed(elem)
    ensures Translate(Render(Array(elem))) == Denote(Array(elem))
    decreases elem, 2
  {
    var s := Render(Array(elem));
    assert s[0] == 'a' && s[1..] == Render(elem);
    RenderNonEmpty(elem);
    match elem {
      case Basic(code) =>
        assert ShapeOf(s).BasicArrayText? <==> ArrayGType(code).Some?;
      case DictEntry(key, value) =>
        TranslateTableIsDenote(key, value);
      case Array(_) =>
        assert ShapeOf(s).CollectionText?;
        TranslateIsDenote(elem);
      case Struct(_) =>
        RenderNonEmpty(elem);
        assert ShapeOf(s).CollectionText?;
        TranslateIsDenote(elem);
    }
  }

  lemma {:induction false} TranslateTableIsDenote(key: Type, value: Type)
    requires WellFormed(key) && WellFormed(value)
    ensures var t := Array(DictEntry(key, value)); Translate(Render(t)) == Denote(t)
    decreases value, 2
  {
    ReadTable(key, value);
    if key.Basic? && IsTableKey(key.code) {
      TranslateIsDenote(value);
      TableShape(key.code, value);
    }
  }

  /** What the analysis finds in the text of a table. */
  lemma ReadTable(key: Type, value: Type)
    requires WellFormed(key) && WellFormed(value)
    ensures var s := Render(Array(DictEntry(key, value)));
            && |s| > 4 && Begins(s, 'a', '{') && s[2] == Render(key)[0]
            && (IsTableKey(s[2]) <==> key.Basic? && IsTableKey(key.code))
            && (key.Basic? ==> s[2] == key.code && Inside(s, 3) == Render(value))
  {
    var s := Render(Array(DictEntry(key, value)));
    assert s[1..] == Render(DictEntry(key, value)) == "{" + Render(key) + Render(value) + "}";
    RenderNonEmpty(key);
    RenderNonEmpty(value);
  }

  lemma RenderNonEmpty(t: Type)
    requires WellFormed(t)
    ensures var s := Render(t);
            && s != ""
            && (t.Basic? ==> s == [t.code])
            && (t.Array? ==> s[0] == 'a' && |s| > 1)
            && (t.DictEntry? ==> s[0] == '{' && |s| > 1)
            && (t.Struct? ==> s[0] == '(' && |s| > 1)
  {
    if t.Array? {
      RenderNonEmpty(t.elem);
    }
  }

  /** Only a table from strings to strings has the text of one. */
  lemma TableShape(code: char, value: Type)
    requires IsTableKey(code) && WellFormed(value)
    ensures var s := Render(Array(DictEntry(Basic(code), value)));
            ShapeOf(s) == if code == 's' && value == Basic('s') then StringTableText else TableText
  {
    var s := Render(Array(DictEntry(Basic(code), value)));
    ReadTable(Basic(code), value);
    if IsStringTable(s) {
      assert Render(value) == [s[3]];
      assert Render(Basic('s')) == "s";
      RenderInjective(value, Basic('s'));
    }
  }

  lemma {:induction false} TranslateInsideIsDenote(fields: seq<Type>)
    requires forall f | f in fields :: WellFormed(f)
    ensures TranslateInside(RenderAll(fields)) == DenoteFields(fields)
    decreases fields, 0
  {
    var s := RenderAll(fields);
    PiecesAreTypes(fields);
    PiecesAreShort(s);
    FieldsAreDenoted(fields, Pieces(s), |s|);
  }

  lemma {:induction false} FieldsAreDenoted(fields: seq<Type>, pieces: seq<string>, bound: nat)
    requires forall f | f in fields :: WellFormed(f)
    requires |pieces| == |fields| && forall i | 0 <= i < |fields| :: pieces[i] == Render(fields[i])
    requires forall p | p in pieces :: |p| <= bound
    ensures TranslateFields(pieces, bound) == DenoteFields(fields)
    decreases fields, 0, |fields|
  {
    if fields != [] {
      TranslateIsDenote(fields[0]);
      FieldsAreDenoted(fields[1..], pieces[1..], bound);
    }
  }

  /** The translation succeeds exactly on the supported types. */
  lemma {:induction false} TranslateSucceeds(t: Type)
    requires WellFormed(t)
    ensures Translate(Render(t)).Some? <==> Supported(t)
  {
    TranslateIsDenote(t);
    DenoteSucceeds(t);
  }

  lemma {:induction false} DenoteSucceeds(t: Type)
    ensures Denote(t).Some? <==> Supported(t)
    decreases t, 1
  {
    match t {
      case Basic(code) =>
      case Array(Basic(code)) =>
      case Array(DictEntry(key, value)) =>
        DenoteSucceeds(value);
      case Array(elem) =>
        DenoteSucceeds(elem);
      case DictEntry(key, value) =>
      case Struct(fields) =>
        DenoteFieldsSucceeds(fields);
    }
  }

  lemma {:induction false} DenoteFieldsSucceeds(fields: seq<Type>)
    ensures DenoteFields(fields).Some? <==> forall f | f in fields :: Supported(f)
    decreases fields, 0
  {
    if fields != [] {
      DenoteSucceeds(fields[0]);
      DenoteFieldsSucceeds(fields[1..]);
      assert forall f :: f in fields <==> f == fields[0] || f in fields[1..];
    }
  }

  // ----- The tables -----

  /** The basic types of the D-Bus Specification that have a binding, alone, in a list, or as the keys of a table. */
  lemma CodesAre(code: char)
    ensures BasicGType(code).Some? <==> code in "ybnqiuxtdsgov"
    ensures ArrayGType(code).Some? <==> code in "syuixtdbo"
    ensures IsTableKey(code) <==> code in "ybnqiusog"
    ensures IsTableKey(code) ==> BasicGType(code).Some?
  {
  }

  /** Two basic types share a binding exactly if they are the integers of 16 and of 32 bits, of like sign. */
  lemma BindingsDiffer(a: char, b: char)
    requires BasicGType(a).Some? && a != b
    ensures BasicGType(a) == BasicGType(b) <==> {a, b} == {'n', 'i'} || {a, b} == {'q', 'u'}
  {
  }

  /** Each list of basic types has a binding of its own. */
  lemma ListBindingsDiffer(a: char, b: char)
    requires ArrayGType(a).Some? && a != b
    ensures ArrayGType(a) != ArrayGType(b)
  {
  }

  // ----- The text of a binding -----

  /** The binding of a table names that of the keys first, then that of the values; every such table is GLib's. */
  lemma TableIsMap(key: Type, value: Type)
    requires WellFormed(key) && WellFormed(value) && Supported(Array(DictEntry(key, value)))
    requires !(key.code == 's' && value == Basic('s'))
    ensures var k, v := Translate(Render(key)), Translate(Render(value));
            && k.Some? && v.Some?
            && Translate(Render(Array(DictEntry(key, value)))) ==
               Some(GType("GHashTable *",
                          "(dbus_g_type_get_map (\"GHashTable\", " + k.value.gType + ", " + v.value.gType + "))",
                          "BOXED", false))
  {
    TranslateIsDenote(Array(DictEntry(key, value)));
    TranslateIsDenote(key);
    TranslateIsDenote(value);
    DenoteSucceeds(value);
  }

  /** The binding of a struct names those of its fields in their order. */
  lemma PairIsInOrder(first: Type, second: Type)
    requires WellFormed(first) && WellFormed(second) && Supported(first) && Supported(second)
    ensures var a, b := Translate(Render(first)), Translate(Render(second));
            && a.Some? && b.Some?
            && Translate(Render(Struct([first, second]))) ==
               Some(GType("GValueArray *",
                          "(dbus_g_type_get_struct (\"GValueArray\", "
                          + (a.value.gType + ", " + (b.value.gType + ", ")) + "G_TYPE_INVALID))",
                          "BOXED", true))
  {
    var fields := [first, second];
    TranslateIsDenote(Struct(fields));
    TranslateIsDenote(first);
    TranslateIsDenote(second);
    DenoteSucceeds(first);
    DenoteSucceeds(second);
    assert fields[1..] == [second] && fields[1..][1..] == [];
    var b := Denote(second).value.gType + ", ";
    assert b + "" == b;
    assert DenoteFields(fields[1..]) == Some(b);
    assert DenoteFields(fields) == Some(Denote(first).value.gType + ", " + b);
  }

  /** The binding of a list names that of what it lists. */
  lemma ListIsCollection(elem: Type)
    requires WellFormed(elem) && Supported(elem) && !elem.Basic?
    ensures var e := Translate(Render(elem));
            && e.Some?
            && Translate(Render(Array(elem))) ==
               Some(GType("GPtrArray *", "(dbus_g_type_get_collection (\"GPtrArray\", " + e.value.gType + "))",
                          "BOXED", true))
  {
    TranslateIsDenote(Array(elem));
    TranslateIsDenote(elem);
    DenoteSucceeds(elem);
  }
}
