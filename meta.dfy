/** The metadata section of a chunk: the string table, the recursive element
    tree that readMeta and readElement walk, and what createElement makes of
    each element (JfrReader.java:200-246).

    The tree is first described as a value (Node) read by pure functions; the
    reader class proves its recursive method equal to them and registers the
    classes the way Register describes. JfrClass, JfrField and Element are not
    part of this model's source; they are modelled here after what readElement
    and readConstants need of them: a class has an id parsed from the "id"
    attribute, the "name" attribute and the list of its field children; a
    field has the "name" attribute, the type id parsed from "class" and
    whether "constantPool" is "true". */
module Meta {
  import opened Wire
  import opened Names

  // ---------------------------------------------------------------------------
  // Integer.parseInt

  predicate IsDigit(c: bv16) { 0x30 <= c <= 0x39 }

  predicate AllDigits(u: seq<bv16>) {
    forall i :: 0 <= i < |u| ==> IsDigit(u[i])
  }

  function DigitValue(c: bv16): int
    requires IsDigit(c)
  {
    c as int - 0x30
  }

  /** The value of a string of decimal digits, most significant first. */
  function Decimal(u: seq<bv16>): nat
    requires AllDigits(u)
    decreases |u|
  {
    if u == [] then 0 else Decimal(u[..|u| - 1]) * 10 + DigitValue(u[|u| - 1])
  }

  /** Integer.parseInt(s) in radix 10: an optional '-' or '+', then at least
      one digit, and a value that fits an int; anything else, null included,
      raises NumberFormatException. */
  function ParseInt(s: JStr): (r: Result<int>)
    ensures r.Ok? ==> IsInt(r.value)
    ensures r.Err? ==> r.error == NumberFormat
  {
    match s
    case Null => Err(NumberFormat)
    case Str(u) =>
      if u == [] then Err(NumberFormat)
      else
        var signed := u[0] == MINUS || u[0] == PLUS;
        var digits := if signed then u[1..] else u;
        if digits == [] || !AllDigits(digits) then Err(NumberFormat)
        else
          var v := if u[0] == MINUS then -(Decimal(digits) as int) else Decimal(digits) as int;
          if IsInt(v) then Ok(v) else Err(NumberFormat)
  }

  /** The decimal digits of n, without leading zeros. */
  function ToDecimal(n: nat): (u: seq<bv16>)
    decreases n
  {
    if n < 10 then [DIGITS[n]] else ToDecimal(n / 10) + [DIGITS[n % 10]]
  }

  /** Integer.toString(n). */
  function IntToString(n: int): seq<bv16> {
    if n < 0 then [MINUS] + ToDecimal(-n) else ToDecimal(n)
  }

  lemma DigitOf(k: int)
    requires 0 <= k < 10
    ensures IsDigit(DIGITS[k]) && DigitValue(DIGITS[k]) == k
  {
    if k == 0 {} else if k == 1 {} else if k == 2 {} else if k == 3 {} else if k == 4 {}
    else if k == 5 {} else if k == 6 {} else if k == 7 {} else if k == 8 {} else {}
  }

  lemma {:induction false} ToDecimalValue(n: nat)
    ensures var u := ToDecimal(n); u != [] && AllDigits(u) && Decimal(u) == n
    decreases n
  {
    var u := ToDecimal(n);
    if n < 10 {
      DigitOf(n);
    } else {
      ToDecimalValue(n / 10);
      DigitOf(n % 10);
      var init := ToDecimal(n / 10);
      assert u[..|u| - 1] == init;
      forall i | 0 <= i < |u| ensures IsDigit(u[i]) {
        if i < |init| { assert u[i] == init[i]; }
      }
    }
  }

  lemma ParseDigits(u: seq<bv16>)
    requires u != [] && AllDigits(u) && Decimal(u) < 0x8000_0000
    ensures ParseInt(Str(u)) == Ok(Decimal(u))
  {
    assert IsDigit(u[0]);
  }

  lemma ParseNegative(u: seq<bv16>)
    requires u != [] && AllDigits(u) && Decimal(u) <= 0x8000_0000
    ensures ParseInt(Str([MINUS] + u)) == Ok(-(Decimal(u) as int))
  {
    var s := [MINUS] + u;
    assert s[0] == MINUS && s[1..] == u;
  }

  /** parseInt reads back every int that toString writes. */
  lemma ParseIntRoundTrip(n: int)
    requires IsInt(n)
    ensures ParseInt(Str(IntToString(n))) == Ok(n)
  {
    if n < 0 {
      var m: nat := -n;
      ToDecimalValue(m);
      ParseNegative(ToDecimal(m));
      assert IntToString(n) == [MINUS] + ToDecimal(m);
    } else {
      ToDecimalValue(n);
      ParseDigits(ToDecimal(n));
      assert IntToString(n) == ToDecimal(n);
    }
  }

  /** A sign with nothing after it, an empty string and null are not numbers. */
  lemma ParseIntRejects(c: bv16)
    ensures ParseInt(Null) == Err(NumberFormat)
    ensures ParseInt(Str([])) == Err(NumberFormat)
    ensures (c == MINUS || c == PLUS) ==> ParseInt(Str([c])) == Err(NumberFormat)
    ensures !(c == MINUS || c == PLUS || IsDigit(c)) ==> ParseInt(Str([c])).Err?
  {
    if !(c == MINUS || c == PLUS || IsDigit(c)) {
      assert [c][0] == c && !IsDigit([c][0]);
    }
  }

  // ---------------------------------------------------------------------------
  // HashMap.put, entry after entry: the attribute maps here, the tables of
  // the constant pools in module Pools

  /** `put` of every entry in turn into m: no key is ever taken out. */
  function PutAll<K, V>(m: map<K, V>, es: seq<(K, V)>): (r: map<K, V>)
    ensures m.Keys <= r.Keys
    decreases |es|
  {
    if es == [] then m else PutAll(m, es[..|es| - 1])[es[|es| - 1].0 := es[|es| - 1].1]
  }

  /** After the entries are put, a key is present exactly when it was before
      or some entry carries it; the last entry with a key decides its value,
      and a key no entry carries keeps its old value. */
  lemma {:induction false} PutAllLookup<K, V>(m: map<K, V>, es: seq<(K, V)>, k: K)
    ensures k in PutAll(m, es) <==> k in m || exists i :: 0 <= i < |es| && es[i].0 == k
    ensures forall i :: 0 <= i < |es| && es[i].0 == k && (forall j :: i < j < |es| ==> es[j].0 != k)
                        ==> PutAll(m, es)[k] == es[i].1
    ensures (forall i :: 0 <= i < |es| ==> es[i].0 != k) && k in m ==> PutAll(m, es)[k] == m[k]
    decreases |es|
  {
    if es != [] {
      var init := es[..|es| - 1];
      PutAllLookup(m, init, k);
      forall i | 0 <= i < |init| ensures init[i] == es[i] { }
      if k in m || exists i :: 0 <= i < |es| && es[i].0 == k {
        if es[|es| - 1].0 != k && !(k in m) {
          var i :| 0 <= i < |es| && es[i].0 == k;
          assert init[i].0 == k;
        }
      }
    }
  }

  /** One more entry put after `es`. */
  lemma PutAllSnoc<K, V>(m: map<K, V>, es: seq<(K, V)>, e: (K, V))
    ensures PutAll(m, es + [e]) == PutAll(m, es)[e.0 := e.1]
  {
    assert (es + [e])[..|es|] == es;
  }

  /** One entry put before `es`. */
  lemma {:induction false} PutAllCons<K, V>(m: map<K, V>, e: (K, V), es: seq<(K, V)>)
    ensures PutAll(m[e.0 := e.1], es) == PutAll(m, [e] + es)
    decreases |es|
  {
    if es != [] {
      var init := es[..|es| - 1];
      PutAllCons(m, e, init);
      assert ([e] + es)[..|es|] == [e] + init;
    }
  }

  // ---------------------------------------------------------------------------
  // The element kinds

  /** HashMap.get: the value, or null for a missing key. */
  function Lookup(attrs: map<JStr, JStr>, key: seq<bv16>): JStr {
    if Str(key) in attrs then attrs[Str(key)] else Null
  }

  datatype JfrField = JfrField(name: JStr, fieldType: int, constantPool: bool)

  /** A "class" element: registered in the reader's tables when created, and
      given its field children once they have been read. */
  class JfrClass {
    const id: int
    const name: JStr
    var fields: seq<JfrField>

    constructor (id: int, name: JStr)
      ensures this.id == id && this.name == name && fields == []
    {
      this.id := id;
      this.name := name;
      fields := [];
    }

    /** addChild: a field child is appended to the fields, any other child
        is dropped. */
    method AddChild(e: Element)
      modifies this`fields
      ensures fields == if e.FieldElement? then old(fields) + [e.field] else old(fields)
    {
      if e.FieldElement? {
        fields := fields + [e.field];
      }
    }
  }

  /** What readElement returns. */
  datatype Element = ClassElement(cls: JfrClass) | FieldElement(field: JfrField) | OtherElement

  /** JfrClass.field(name): the first field with that name, or null. Comparing
      with a field whose name is null raises NullPointerException. */
  function FieldNamed(fields: seq<JfrField>, n: seq<bv16>): (r: Result<Option<JfrField>>)
    ensures r.Ok? && r.value.Some? ==> r.value.value in fields && r.value.value.name == Str(n)
    ensures r.Ok? && r.value.None? ==> forall f :: f in fields ==> f.name != Str(n)
    ensures r.Err? ==> r.error == NullPointer && exists f :: f in fields && f.name == Null
    decreases |fields|
  {
    if fields == [] then Ok(None)
    else if fields[0].name == Null then Err(NullPointer)
    else if fields[0].name == Str(n) then Ok(Some(fields[0]))
    else
      var rest :- FieldNamed(fields[1..], n);
      assert forall f :: f in fields[1..] ==> f in fields;
      Ok(rest)
  }

  /** The element createElement makes, as a value: a class with its id, its
      name and whether it is registered by id (no "superType" attribute), a
      field, or a plain element. */
  datatype Elem = ClassElem(id: int, name: JStr, byId: bool) | FieldElem(field: JfrField) | OtherElem

  /** createElement(name, attributes) (JfrReader.java:231-246) without its
      registration: a switch on a null name raises NullPointerException, and
      the id of a class and the type of a field must parse as ints. */
  function Create(name: JStr, attrs: map<JStr, JStr>): (r: Result<Elem>)
    ensures r.Err? ==> r.error in {NullPointer, NumberFormat}
  {
    if name == Null then Err(NullPointer)
    else if name == Str(CLASS) then
      var id :- ParseInt(Lookup(attrs, ID));
      Ok(ClassElem(id, Lookup(attrs, NAME), Str(SUPER_TYPE) !in attrs))
    else if name == Str(FIELD) then
      var t :- ParseInt(Lookup(attrs, CLASS));
      Ok(FieldElem(JfrField(Lookup(attrs, NAME), t, Lookup(attrs, CONSTANT_POOL) == Str(TRUE))))
    else Ok(OtherElem)
  }

  /** The type tables as createElement leaves them, seen by value: the id
      typesByName finds for each name, and the ids types holds. */
  datatype Registry = Registry(names: map<JStr, int>, ids: set<int>)

  /** createElement's registration: a class goes into typesByName under its
      name, replacing an earlier class of that name, and into types under its
      id only when it has no super type. */
  function Register(g: Registry, e: Elem): (r: Registry)
    ensures !e.ClassElem? ==> r == g
    ensures e.ClassElem? ==> r.names.Keys == g.names.Keys + {e.name} && r.names[e.name] == e.id
    ensures e.ClassElem? ==> forall n :: n in g.names && n != e.name ==> r.names[n] == g.names[n]
    ensures e.ClassElem? ==> g.ids <= r.ids <= g.ids + {e.id} && (e.id in r.ids <==> e.byId || e.id in g.ids)
  {
    match e
    case ClassElem(id, name, byId) => Registry(g.names[name := id], if byId then g.ids + {id} else g.ids)
    case _ => g
  }

  /** getTypeId(name) (JfrReader.java:407-410): the id of the class registered
      under the name, or -1 when there is none. */
  function TypeId(names: map<JStr, int>, typeName: seq<bv16>): (r: int)
    ensures Str(typeName) !in names ==> r == -1
    ensures Str(typeName) in names ==> r == names[Str(typeName)]
  {
    if Str(typeName) in names then names[Str(typeName)] else -1
  }

  /** createElement registers a "class" element by its "name" attribute
      always, by its parsed "id" attribute exactly when it has no "superType"
      attribute, and registers nothing for any other element. */
  lemma CreateRegisters(g: Registry, name: JStr, attrs: map<JStr, JStr>)
    requires Create(name, attrs).Ok?
    ensures var g' := Register(g, Create(name, attrs).value);
      && (name == Str(CLASS) ==>
            var id := ParseInt(Lookup(attrs, ID)).value;
            && g'.names == g.names[Lookup(attrs, NAME) := id]
            && (Str(SUPER_TYPE) in attrs ==> g'.ids == g.ids)
            && (Str(SUPER_TYPE) !in attrs ==> g'.ids == g.ids + {id}))
      && (name != Str(CLASS) ==> g' == g)
  {
  }

  /** After a class named n is registered, getTypeId(n) finds its id, and a
      name nobody registered still gives -1. */
  lemma RegisteredTypeId(g: Registry, e: Elem, typeName: seq<bv16>)
    ensures e.ClassElem? && e.name == Str(typeName) ==> TypeId(Register(g, e).names, typeName) == e.id
    ensures Str(typeName) !in g.names && !(e.ClassElem? && e.name == Str(typeName))
            ==> TypeId(Register(g, e).names, typeName) == -1
  {
  }

  // ---------------------------------------------------------------------------
  // The element tree

  /** An element as read, with its children in order. */
  datatype Node = Node(elem: Elem, children: seq<Node>)

  /** The fields a class element collects from its children through addChild. */
  function FieldsOf(kids: seq<Node>): (fs: seq<JfrField>)
    ensures forall f :: f in fs ==> exists i :: 0 <= i < |kids| && kids[i].elem == FieldElem(f)
    ensures |fs| <= |kids|
    decreases |kids|
  {
    if kids == [] then []
    else
      var rest := FieldsOf(kids[1..]);
      assert forall f :: f in rest ==> exists i :: 1 <= i < |kids| && kids[i].elem == FieldElem(f) by {
        forall f | f in rest ensures exists i :: 1 <= i < |kids| && kids[i].elem == FieldElem(f) {
          var j :| 0 <= j < |kids[1..]| && kids[1..][j].elem == FieldElem(f);
          assert kids[j + 1].elem == FieldElem(f);
        }
      }
      if kids[0].elem.FieldElem? then [kids[0].elem.field] + rest else rest
  }

  /** The registration readElement performs on the way down: an element is
      registered before its children, the children in order. */
  function RegisterNode(g: Registry, n: Node): Registry
    decreases n
  {
    RegisterKids(Register(g, n.elem), n.children)
  }

  function RegisterKids(g: Registry, kids: seq<Node>): Registry
    decreases kids
  {
    if kids == [] then g else RegisterKids(RegisterNode(g, kids[0]), kids[1..])
  }

  /** The names of the class elements of a tree. */
  function ClassNames(n: Node): set<JStr>
    decreases n
  {
    (if n.elem.ClassElem? then {n.elem.name} else {}) + KidsClassNames(n.children)
  }

  function KidsClassNames(kids: seq<Node>): set<JStr>
    decreases kids
  {
    if kids == [] then {} else ClassNames(kids[0]) + KidsClassNames(kids[1..])
  }

  /** The id under which createElement puts an element into types, if any. */
  function DeclaredIds(e: Elem): set<int> {
    if e.ClassElem? && e.byId then {e.id} else {}
  }

  /** The ids of the class elements of a tree that have no super type. */
  function ClassIds(n: Node): set<int>
    decreases n
  {
    DeclaredIds(n.elem) + KidsClassIds(n.children)
  }

  function KidsClassIds(kids: seq<Node>): set<int>
    decreases kids
  {
    if kids == [] then {} else ClassIds(kids[0]) + KidsClassIds(kids[1..])
  }

  /** Reading a tree adds exactly the names of its class elements to
      typesByName and the ids of those without a super type to types; no
      name or id registered before is lost. */
  lemma {:induction false} RegisterNodeKeys(g: Registry, n: Node)
    ensures RegisterNode(g, n).names.Keys == g.names.Keys + ClassNames(n)
    ensures RegisterNode(g, n).ids == g.ids + ClassIds(n)
    decreases n
  {
    RegisterKidsKeys(Register(g, n.elem), n.children);
  }

  lemma {:induction false} RegisterKidsKeys(g: Registry, kids: seq<Node>)
    ensures RegisterKids(g, kids).names.Keys == g.names.Keys + KidsClassNames(kids)
    ensures RegisterKids(g, kids).ids == g.ids + KidsClassIds(kids)
    decreases kids
  {
    if kids != [] {
      RegisterNodeKeys(g, kids[0]);
      RegisterKidsKeys(RegisterNode(g, kids[0]), kids[1..]);
    }
  }

  /** getTypeId answers -1 after the metadata is read for a name that was not
      registered before and that no class element of the tree carries. */
  lemma UnknownTypeId(g: Registry, n: Node, typeName: seq<bv16>)
    requires Str(typeName) !in g.names && Str(typeName) !in ClassNames(n)
    ensures TypeId(RegisterNode(g, n).names, typeName) == -1
  {
    RegisterNodeKeys(g, n);
  }

  /** Adding a child at the end adds its field, if it is one, at the end. */
  lemma {:induction false} FieldsOfSnoc(kids: seq<Node>, n: Node)
    ensures FieldsOf(kids + [n]) == FieldsOf(kids) + (if n.elem.FieldElem? then [n.elem.field] else [])
    decreases |kids|
  {
    if kids != [] {
      assert (kids + [n])[1..] == kids[1..] + [n];
      FieldsOfSnoc(kids[1..], n);
    }
  }

  /** Registering the children one more at a time. */
  lemma {:induction false} RegisterKidsSnoc(g: Registry, kids: seq<Node>, n: Node)
    ensures RegisterKids(g, kids + [n]) == RegisterNode(RegisterKids(g, kids), n)
    decreases |kids|
  {
    if kids != [] {
      assert (kids + [n])[1..] == kids[1..] + [n];
      RegisterKidsSnoc(RegisterNode(g, kids[0]), kids[1..], n);
    }
  }

  /** What readConstants needs of a class in types: its name and fields. */
  datatype TypeInfo = TypeInfo(name: JStr, fields: seq<JfrField>)

  /** types seen by value after a class element is put under its id, with the
      fields it ends up with; an element without that registration changes
      nothing. */
  function Declare(infos: map<int, TypeInfo>, e: Elem, fields: seq<JfrField>): map<int, TypeInfo> {
    if e.ClassElem? && e.byId then infos[e.id := TypeInfo(e.name, fields)] else infos
  }

  /** Declaring an element again replaces its earlier declaration. */
  lemma DeclareTwice(infos: map<int, TypeInfo>, e: Elem, fs: seq<JfrField>, fs': seq<JfrField>)
    ensures Declare(Declare(infos, e, fs), e, fs') == Declare(infos, e, fs')
  {
  }

  /** types seen by value once a tree is read: each class is put under its id
      before its children are read, so a later class with the same id
      replaces it, and each keeps the fields its children give it. */
  function InfosNode(infos: map<int, TypeInfo>, n: Node): map<int, TypeInfo>
    decreases n
  {
    InfosKids(Declare(infos, n.elem, FieldsOf(n.children)), n.children)
  }

  function InfosKids(infos: map<int, TypeInfo>, kids: seq<Node>): map<int, TypeInfo>
    decreases kids
  {
    if kids == [] then infos else InfosKids(InfosNode(infos, kids[0]), kids[1..])
  }

  /** The classes of the tree occupy exactly the ids the Registry view adds. */
  lemma {:induction false} InfosNodeKeys(infos: map<int, TypeInfo>, n: Node)
    ensures InfosNode(infos, n).Keys == infos.Keys + ClassIds(n)
    decreases n
  {
    InfosKidsKeys(Declare(infos, n.elem, FieldsOf(n.children)), n.children);
  }

  lemma {:induction false} InfosKidsKeys(infos: map<int, TypeInfo>, kids: seq<Node>)
    ensures InfosKids(infos, kids).Keys == infos.Keys + KidsClassIds(kids)
    decreases kids
  {
    if kids != [] {
      InfosNodeKeys(infos, kids[0]);
      InfosKidsKeys(InfosNode(infos, kids[0]), kids[1..]);
    }
  }

  /** Changing one entry before a tree is read: a class of the tree with that
      id overwrites it, otherwise the change survives unaltered. */
  lemma {:induction false} InfosNodeUpdate(infos: map<int, TypeInfo>, n: Node, k: int, x: TypeInfo)
    ensures InfosNode(infos[k := x], n) == if k in ClassIds(n) then InfosNode(infos, n) else InfosNode(infos, n)[k := x]
    decreases n
  {
    var fs := FieldsOf(n.children);
    if n.elem.ClassElem? && n.elem.byId && n.elem.id == k {
      assert Declare(infos[k := x], n.elem, fs) == Declare(infos, n.elem, fs);
    } else {
      assert Declare(infos[k := x], n.elem, fs) == Declare(infos, n.elem, fs)[k := x];
      InfosKidsUpdate(Declare(infos, n.elem, fs), n.children, k, x);
    }
  }

  lemma {:induction false} InfosKidsUpdate(infos: map<int, TypeInfo>, kids: seq<Node>, k: int, x: TypeInfo)
    ensures InfosKids(infos[k := x], kids) == if k in KidsClassIds(kids) then InfosKids(infos, kids) else InfosKids(infos, kids)[k := x]
    decreases kids
  {
    if kids != [] {
      InfosNodeUpdate(infos, kids[0], k, x);
      if k in ClassIds(kids[0]) {
        assert InfosKids(infos[k := x], kids) == InfosKids(infos, kids);
      } else {
        InfosKidsUpdate(InfosNode(infos, kids[0]), kids[1..], k, x);
      }
    }
  }

  /** Reading the children one more at a time. */
  lemma {:induction false} InfosKidsSnoc(infos: map<int, TypeInfo>, kids: seq<Node>, n: Node)
    ensures InfosKids(infos, kids + [n]) == InfosNode(InfosKids(infos, kids), n)
    ensures KidsClassIds(kids + [n]) == KidsClassIds(kids) + ClassIds(n)
    decreases |kids|
  {
    if kids != [] {
      assert (kids + [n])[1..] == kids[1..] + [n];
      InfosKidsSnoc(InfosNode(infos, kids[0]), kids[1..], n);
    }
  }

  /** The element readElement returns stands for the node: a class with the
      node's id and name and the fields among its children, or the same field,
      or a plain element. */
  predicate Made(e: Element, n: Node)
    reads if e.ClassElement? then {e.cls} else {}
  {
    match n.elem
    case ClassElem(id, name, _) => e.ClassElement? && e.cls.id == id && e.cls.name == name && e.cls.fields == FieldsOf(n.children)
    case FieldElem(f) => e == FieldElement(f)
    case OtherElem => e == OtherElement
  }

  // ---------------------------------------------------------------------------
  // Reading the tree

  /** `strings[getVarint()]`: an index outside the string table raises
      ArrayIndexOutOfBoundsException. */
  function StringRef(d: seq<byte>, p: int, lim: int, strings: seq<JStr>): (r: Result<Parsed<JStr>>)
    requires InBuffer(d, p, lim)
    ensures Advanced(r, p, lim) && (r.Ok? ==> p < r.value.next)
    ensures r.Ok? ==> r.value.value in strings
  {
    var i :- Varint(d, p, lim);
    var k := Int32(i.value);
    if 0 <= k < |strings| then Ok(Parsed(strings[k], i.next)) else Err(IndexOutOfBounds)
  }

  /** One attribute of readElement: the key is looked up before the value's
      index is read. */
  function AttrAt(d: seq<byte>, p: int, lim: int, strings: seq<JStr>): (r: Result<Parsed<(JStr, JStr)>>)
    requires InBuffer(d, p, lim)
    ensures Advanced(r, p, lim) && (r.Ok? ==> p + 2 <= r.value.next)
    ensures r.Ok? ==> r.value.value.0 in strings && r.value.value.1 in strings
  {
    var k :- StringRef(d, p, lim, strings);
    var v :- StringRef(d, k.next, lim, strings);
    Ok(Parsed((k.value, v.value), v.next))
  }

  /** readElement's attribute loop with `n` pairs still to read: a later pair
      replaces an earlier one with the same key. */
  function AttrsFrom(d: seq<byte>, p: int, lim: int, strings: seq<JStr>, n: int, acc: map<JStr, JStr>)
    : (r: Result<Parsed<map<JStr, JStr>>>)
    requires InBuffer(d, p, lim)
    ensures Advanced(r, p, lim)
    ensures r.Ok? ==> acc.Keys <= r.value.value.Keys
    ensures r.Ok? ==> forall k :: k in r.value.value && k !in acc ==> k in strings
    decreases n
  {
    if n <= 0 then Ok(Parsed(acc, p))
    else
      var a :- AttrAt(d, p, lim, strings);
      AttrsFrom(d, a.next, lim, strings, n - 1, acc[a.value.0 := a.value.1])
  }

  /** The name and attributes of an element (JfrReader.java:215-221); a
      negative attribute count is a negative HashMap capacity. */
  function ElementHead(d: seq<byte>, p: int, lim: int, strings: seq<JStr>): (r: Result<Parsed<(JStr, map<JStr, JStr>)>>)
    requires InBuffer(d, p, lim)
    ensures Advanced(r, p, lim) && (r.Ok? ==> p + 2 <= r.value.next)
    ensures r.Ok? ==> r.value.value.0 in strings && forall k :: k in r.value.value.1 ==> k in strings
  {
    var name :- StringRef(d, p, lim, strings);
    var count :- Varint(d, name.next, lim);
    if Int32(count.value) < 0 then Err(IllegalArgument)
    else
      var attrs :- AttrsFrom(d, count.next, lim, strings, Int32(count.value), map[]);
      Ok(Parsed((name.value, attrs.value), attrs.next))
  }

  /** readElement (JfrReader.java:214-229): the name, the attribute count
      (a negative count is a negative HashMap capacity), the attributes, the
      element createElement makes, then the children. */
  function ElementAt(d: seq<byte>, p: int, lim: int, strings: seq<JStr>): (r: Result<Parsed<Node>>)
    requires InBuffer(d, p, lim)
    ensures Advanced(r, p, lim) && (r.Ok? ==> p < r.value.next)
    ensures r.Ok? ==> var head := ElementHead(d, p, lim, strings);
      head.Ok? && Create(head.value.value.0, head.value.value.1) == Ok(r.value.value.elem)
    decreases lim - p, 0
  {
    var head :- ElementHead(d, p, lim, strings);
    ElementFrom(d, head.next, lim, strings, head.value.0, head.value.1)
  }

  /** readElement once the name and attributes are read: the element
      createElement makes, then its children. */
  function ElementFrom(d: seq<byte>, p: int, lim: int, strings: seq<JStr>, name: JStr, attributes: map<JStr, JStr>)
    : (r: Result<Parsed<Node>>)
    requires InBuffer(d, p, lim)
    ensures Advanced(r, p, lim)
    ensures r.Ok? ==> Create(name, attributes) == Ok(r.value.value.elem)
    ensures Create(name, attributes).Err? ==> r == Err(Create(name, attributes).error)
    decreases lim - p, 3
  {
    var e :- Create(name, attributes);
    ElementBody(d, p, lim, strings, e)
  }

  /** The children of the element `e` (JfrReader.java:223-227): their count,
      then each child in turn. */
  function ElementBody(d: seq<byte>, p: int, lim: int, strings: seq<JStr>, e: Elem): (r: Result<Parsed<Node>>)
    requires InBuffer(d, p, lim)
    ensures Advanced(r, p, lim) && (r.Ok? ==> r.value.value.elem == e)
    decreases lim - p, 2
  {
    var kids :- Varint(d, p, lim);
    var children :- ChildrenFrom(d, kids.next, lim, strings, Int32(kids.value), []);
    Ok(Parsed(Node(e, children.value), children.next))
  }

  /** readElement's child loop with `n` children still to read after `acc`. */
  function ChildrenFrom(d: seq<byte>, p: int, lim: int, strings: seq<JStr>, n: int, acc: seq<Node>)
    : (r: Result<Parsed<seq<Node>>>)
    requires InBuffer(d, p, lim)
    ensures Advanced(r, p, lim)
    ensures r.Ok? ==> |r.value.value| == |acc| + (if n < 0 then 0 else n) && r.value.value[..|acc|] == acc
    decreases lim - p, 1, n
  {
    if n <= 0 then Ok(Parsed(acc, p))
    else
      var child :- ElementAt(d, p, lim, strings);
      var rest :- ChildrenFrom(d, child.next, lim, strings, n - 1, acc + [child.value]);
      assert rest.value[..|acc| + 1][..|acc|] == acc;
      Ok(rest)
  }

  /** readMeta's string table loop with `n` strings still to read after `acc`. */
  function StringsFrom(d: seq<byte>, p: int, lim: int, utf8: seq<byte> -> seq<bv16>, n: nat, acc: seq<JStr>)
    : (r: Result<Parsed<seq<JStr>>>)
    requires InBuffer(d, p, lim)
    ensures Advanced(r, p, lim)
    ensures r.Ok? ==> |r.value.value| == |acc| + n && r.value.value[..|acc|] == acc
    decreases n
  {
    if n == 0 then Ok(Parsed(acc, p))
    else
      var s :- GetString(d, p, lim, utf8);
      var rest :- StringsFrom(d, s.next, lim, utf8, n - 1, acc + [s.value]);
      assert rest.value[..|acc| + 1][..|acc|] == acc;
      Ok(rest)
  }

  /** The first five numbers of readMeta (JfrReader.java:201-205), read and
      dropped: the record's size and type, then its start, duration and
      metadata id. */
  function MetaHeader(d: seq<byte>, p: int, lim: int): (r: Result<Parsed<jlong>>)
    requires InBuffer(d, p, lim)
    ensures Advanced(r, p, lim) && (r.Ok? ==> p + 5 <= r.value.next)
  {
    var size :- Varint(d, p, lim);
    var kind :- Varint(d, size.next, lim);
    var start :- Varlong(d, kind.next, lim);
    var duration :- Varlong(d, start.next, lim);
    Varlong(d, duration.next, lim)
  }

  /** readMeta (JfrReader.java:200-212): the header, the string table (a
      negative size is rejected by `new String[]`), then the root element. */
  function MetaAt(d: seq<byte>, p: int, lim: int, utf8: seq<byte> -> seq<bv16>)
    : (r: Result<Parsed<(seq<JStr>, Node)>>)
    requires InBuffer(d, p, lim)
    ensures Advanced(r, p, lim)
  {
    var header :- MetaHeader(d, p, lim);
    MetaBody(d, header.next, lim, utf8)
  }

  /** readMeta after its header: the string table, then the root element. */
  function MetaBody(d: seq<byte>, p: int, lim: int, utf8: seq<byte> -> seq<bv16>)
    : (r: Result<Parsed<(seq<JStr>, Node)>>)
    requires InBuffer(d, p, lim)
    ensures Advanced(r, p, lim)
    ensures var n := Varint(d, p, lim);
      && (n.Ok? && Int32(n.value.value) < 0 ==> r == Err(NegativeArraySize))
      && (r.Ok? ==> n.Ok? && |r.value.value.0| == Int32(n.value.value))
  {
    var n :- Varint(d, p, lim);
    if Int32(n.value) < 0 then Err(NegativeArraySize)
    else MetaTable(d, n.next, lim, utf8, Int32(n.value))
  }

  /** The `n` strings of the table, then the root element. */
  function MetaTable(d: seq<byte>, p: int, lim: int, utf8: seq<byte> -> seq<bv16>, n: nat)
    : (r: Result<Parsed<(seq<JStr>, Node)>>)
    requires InBuffer(d, p, lim)
    ensures Advanced(r, p, lim)
    ensures r.Ok? ==> |r.value.value.0| == n
  {
    var strings :- StringsFrom(d, p, lim, utf8, n, []);
    var root :- ElementAt(d, strings.next, lim, strings.value);
    Ok(Parsed((strings.value, root.value), root.next))
  }

  /** The failures of readElement's own reads: a name or attribute index
      outside the table, a negative attribute count, and a null name. */
  lemma ElementRejects(d: seq<byte>, p: int, lim: int, strings: seq<JStr>)
    requires InBuffer(d, p, lim)
    requires Varint(d, p, lim).Ok?
    ensures var i := Varint(d, p, lim).value;
      && (!(0 <= Int32(i.value) < |strings|) ==> ElementAt(d, p, lim, strings) == Err(IndexOutOfBounds))
      && (0 <= Int32(i.value) < |strings| ==>
            var count := Varint(d, i.next, lim);
            && (count.Ok? && Int32(count.value.value) < 0 ==> ElementAt(d, p, lim, strings) == Err(IllegalArgument))
            && (count.Ok? && 0 <= Int32(count.value.value) && strings[Int32(i.value)] == Null
                && AttrsFrom(d, count.value.next, lim, strings, Int32(count.value.value), map[]).Ok?
                ==> ElementAt(d, p, lim, strings) == Err(NullPointer)))
  {
  }
}
