/** What each kind of program value is written as, in bytes, and which fields of a struct are left out. */
module ValueTables {
  import opened Wire
  import opened ValueEncoder
  import FormatTables

  // ----- fields -----

  /** A field is left out if and only if it is marked so and its value is the zero of its kind. An array or a struct is
      zero if each of its parts would be left out in the field's place. */
  lemma FieldLeftOut(heap: Heap, f: Field, path: set<nat>)
    requires !f.embed
    ensures !f.omit ==> FieldTrees(heap, [f], path) != []
    ensures f.omit ==>
      var gone := FieldTrees(heap, [f], path) == [];
      match f.value
      case VText(s) => gone <==> |s| == 0
      case VInt(n) => gone <==> n == 0
      case VUint(n) => gone <==> n == 0
      case VUintptr(n) => gone <==> n == 0
      case VFloat(isZero, _) => gone <==> isZero
      case VBool(b) => gone <==> b == false
      case VBytes(isNil, _) => gone <==> isNil
      case VByteArray(data, _) => gone <==> forall k | 0 <= k < |data| :: data[k] == 0
      case VPointer(_) => !gone
      case VNilPointer => gone
      case VInterface(inner) => gone <==> inner == None
      case VSlice(isNil, _) => gone <==> isNil
      case VMap(isNil, _) => gone <==> isNil
      case VFunc(isNil) => gone <==> isNil
      case VArray(elems) => gone <==> forall e <- elems :: FieldTrees(heap, [f.(value := e)], path) == []
      case VStruct(fields) => gone <==> forall g <- fields :: FieldTrees(heap, [f.(value := g.value)], path) == []
  {
    hide Tree, Trees, FieldTrees, TextTree;
    OneField(heap, f, path);
    if f.omit {
      match f.value
      case VArray(elems) =>
        ZeroElems(elems);
        forall e <- elems ensures FieldTrees(heap, [f.(value := e)], path) == [] <==> IsZero(e) {
          OneField(heap, f.(value := e), path);
        }
      case VStruct(fields) =>
        ZeroFields(fields);
        forall g <- fields ensures FieldTrees(heap, [f.(value := g.value)], path) == [] <==> IsZero(g.value) {
          OneField(heap, f.(value := g.value), path);
        }
      case VByteArray(data, _) => assert forall k | 0 <= k < |data| :: data[k] in data;
      case _ =>
    }
  }

  lemma {:induction false} ZeroElems(elems: seq<Val>)
    ensures AllZeroElems(elems) <==> forall e <- elems :: IsZero(e)
  {
    hide IsZero;
    if elems != [] {
      ZeroElems(elems[1..]);
      assert forall e <- elems :: e == elems[0] || e in elems[1..];
      assert elems[0] in elems && forall e <- elems[1..] :: e in elems;
    }
  }

  lemma {:induction false} ZeroFields(fields: seq<Field>)
    ensures AllZero(fields) <==> forall f <- fields :: IsZero(f.value)
  {
    hide IsZero;
    if fields != [] {
      ZeroFields(fields[1..]);
      assert forall f <- fields :: f == fields[0] || f in fields[1..];
    }
  }

  lemma OneField(heap: Heap, f: Field, path: set<nat>)
    ensures FieldTrees(heap, [f], path) ==
            if f.omit && IsZero(f.value) then []
            else if f.embed && f.value.VStruct? then FieldTrees(heap, f.value.fields, path)
            else
              var t := Tree(heap, f.value, path);
              [TextTree(f.name), if f.hex then Sem(HEX_HEAD, t) else t]
  {
    hide IsZero, Tree, TextTree;
    assert [f][1..] == [] && FieldTrees(heap, [], path) == [];
  }

  /** A field that is not left out: its name, then its value, which has the byte 0xC7 before it if it is marked as
      hexadecimal. The fields of an embedded struct come instead. */
  lemma FieldWritten(heap: Heap, f: Field, path: set<nat>)
    requires FieldTrees(heap, [f.(embed := false)], path) != []
    ensures EncAll(FieldTrees(heap, [f], path)) ==
            if f.embed && f.value.VStruct? then EncAll(FieldTrees(heap, f.value.fields, path))
            else Enc(TextTree(f.name)) + (if f.hex then [0xC7] else []) + Enc(Tree(heap, f.value, path))
  {
    hide Enc, EncAll, IsZero, Tree, Trees, FieldTrees, TextTree;
    OneField(heap, f, path);
    OneField(heap, f.(embed := false), path);
    FieldBytes([], f, Tree(heap, f.value, path));
    FormatTables.HeadWritten(6, 7);
    assert [] + Enc(TextTree(f.name)) == Enc(TextTree(f.name));
    var t := Tree(heap, f.value, path);
    var all := EncAll([TextTree(f.name), if f.hex then Sem(HEX_HEAD, t) else t]);
    assert [] + all == all;
  }

  /** Fields are written one after the other, in their order. */
  lemma {:induction false} FieldsInOrder(heap: Heap, fs: seq<Field>, gs: seq<Field>, path: set<nat>)
    ensures FieldTrees(heap, fs + gs, path) == FieldTrees(heap, fs, path) + FieldTrees(heap, gs, path)
    decreases |fs|
  {
    hide Tree, IsZero;
    if fs == [] {
      assert fs + gs == gs;
    } else {
      assert (fs + gs)[1..] == fs[1..] + gs;
      FieldsInOrder(heap, fs[1..], gs, path);
    }
  }

  // ----- values -----

  /** Values without values inside. Lengths and numbers are below 24; longer heads are those of `ShortestHead`. */
  lemma LeafWritten(heap: Heap, v: Val, path: set<nat>)
    ensures var e := Enc(Tree(heap, v, path));
      match v
      case VText(s) => |s| < 24 ==> e == [0x60 + |s|] + s
      case VInt(n) => (0 <= n < 24 ==> e == [n]) && (-24 <= n < 0 ==> e == [0x20 - 1 - n])
      case VUint(n) => n < 24 ==> e == [n]
      case VUintptr(n) => n < 24 ==> e == [0xC7, n]
      case VFloat(_, f) => e == Enc(f)
      case VBool(b) => e == if b then [0xF5] else [0xF4]
      case VBytes(_, data) => |data| < 24 ==> e == [0x40 + |data|] + data
      case VByteArray(data, readable) =>
        if !readable then e == [0xF7] else |data| < 24 ==> e == [0x40 + |data|] + data
      case VNilPointer => e == [0xF6]
      case VPointer(p) => (p.addr in path ==> e == [0xEA]) && (p.addr !in path && p !in heap ==> e == [0xF6])
      case VInterface(inner) => inner == None ==> e == [0xF6]
      case VFunc(_) => e == [0xF7]
      case _ => true
  {
    hide Enc, NumTree, MinHead, Trees, FieldTrees, HeadBytes;
    TreeBytes(heap, v, path);
    match v
    case VText(s) => Strings(s);
    case VBytes(_, data) => Strings(data);
    case VByteArray(data, _) => Strings(data);
    case VInt(n) => Numbers(n);
    case VUint(n) => Numbers(n);
    case VUintptr(n) =>
      Numbers(n);
      FormatTables.HeadWritten(6, 7);
    case _ =>
  }

  lemma Strings(s: bytes)
    ensures |s| < 24 ==> HeadBytes(Text, MinHead(|s|)) == [0x60 + |s|] && HeadBytes(Bytes, MinHead(|s|)) == [0x40 + |s|]
  {
    if |s| < 24 {
      FormatTables.ShortestHead(2, |s|);
      FormatTables.ShortestHead(3, |s|);
    }
  }

  lemma Numbers(n: int)
    ensures 0 <= n < 24 ==> Enc(NumTree(n)) == [n]
    ensures -24 <= n < 0 ==> Enc(NumTree(n)) == [0x20 - 1 - n]
  {
    hide Enc, NumTree, MinHead;
    if 0 <= n < 24 {
      FormatTables.ValuesWritten(n, [], [], Simple(NIL));
    } else if -24 <= n < 0 {
      FormatTables.ValuesWritten(-1 - n, [], [], Simple(NIL));
    }
  }

  /** Values with values inside: an array announces its elements and a map its pairs; a struct is a map with a break. */
  lemma ContainerWritten(heap: Heap, v: Val, path: set<nat>)
    ensures var e := Enc(Tree(heap, v, path));
      match v
      case VSlice(_, elems) => |elems| < 24 ==> e == [0x80 + |elems|] + EncAll(Trees(heap, elems, path))
      case VArray(elems) => |elems| < 24 ==> e == [0x80 + |elems|] + EncAll(Trees(heap, elems, path))
      case VMap(_, kvs) => |kvs| < 48 ==> e == [0xA0 + |kvs| / 2] + EncAll(Trees(heap, kvs, path))
      case VStruct(fields) => e == [0xBF] + EncAll(FieldTrees(heap, fields, path)) + [0xFF]
      case VInterface(inner) => inner.Some? ==> e == Enc(Tree(heap, inner.value, path))
      case VPointer(p) => p.addr !in path && p in heap ==> e == Enc(Tree(heap, heap[p], path + {p.addr}))
      case _ => true
  {
    hide Enc, EncAll, Trees, FieldTrees, MinHead;
    TreeBytes(heap, v, path);
    match v
    case VSlice(_, elems) =>
      if |elems| < 24 { FormatTables.ValuesWritten(|elems|, [], Trees(heap, elems, path), Simple(NIL)); }
    case VArray(elems) =>
      if |elems| < 24 { FormatTables.ValuesWritten(|elems|, [], Trees(heap, elems, path), Simple(NIL)); }
    case VMap(_, kvs) =>
      if |kvs| < 48 { FormatTables.ValuesWritten(|kvs| / 2, [], Trees(heap, kvs, path), Simple(NIL)); }
    case _ =>
  }

  /** The elements of a container are written in order, each as it would be on its own. */
  lemma {:induction false} ElementWritten(heap: Heap, vs: seq<Val>, path: set<nat>, k: nat)
    requires k < |vs|
    ensures Trees(heap, vs, path)[k] == Tree(heap, vs[k], path)
    decreases |vs|
  {
    hide Tree;
    if k > 0 {
      ElementWritten(heap, vs[1..], path, k - 1);
    }
  }
}
