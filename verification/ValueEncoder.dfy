/** Encoding of program values: a recursion over a heap that may be cyclic, cut where an address is met again on
    the current path. */
module ValueEncoder {
  import opened Wire

  // ----- program values -----

  /** A pointer: its address, and the type it points to. A struct and its first field have one address. */
  datatype Ptr = Ptr(addr: nat, typ: nat)

  /** A value as reflection sees it. Slices, maps and structs are stored inline; only pointers refer to the heap.
      `readable`: an array of bytes that is addressable or exported. */
  datatype Val =
    | VText(s: bytes)
    | VInt(n: int)
    | VUint(u: nat)
    | VFloat(isZero: bool, encoded: Value)
    | VBool(b: bool)
    | VBytes(isNil: bool, data: bytes)
    | VByteArray(data: bytes, readable: bool)
    | VPointer(ptr: Ptr)
    | VNilPointer
    | VInterface(inner: Option<Val>)
    | VSlice(isNil: bool, elems: seq<Val>)
    | VArray(elems: seq<Val>)
    | VMap(isNil: bool, entries: seq<Val>)  // keys and values alternate, in iteration order
    | VStruct(fields: seq<Field>)
    | VFunc(isNil: bool)
    | VUintptr(u: nat)

  /** `omit` drops the field when it is zero. */
  datatype Field = Field(name: bytes, omit: bool, embed: bool, hex: bool, value: Val)

  type Heap = map<Ptr, Val>

  function Addresses(heap: Heap): set<nat> { set p | p in heap :: p.addr }

  /** `reflect.Value.IsZero`. */
  predicate IsZero(v: Val)
    decreases v, 1
  {
    match v
    case VText(s) => s == []
    case VInt(n) => n == 0
    case VUint(n) => n == 0
    case VFloat(isZero, _) => isZero
    case VBool(b) => !b
    case VBytes(isNil, _) => isNil
    case VByteArray(data, _) => forall x <- data :: x == 0
    case VPointer(_) => false
    case VNilPointer => true
    case VInterface(inner) => inner.None?
    case VSlice(isNil, _) => isNil
    case VArray(elems) => AllZeroElems(elems)
    case VMap(isNil, _) => isNil
    case VStruct(fields) => AllZero(fields)
    case VFunc(isNil) => isNil
    case VUintptr(n) => n == 0
  }

  predicate AllZeroElems(elems: seq<Val>)
    decreases elems, 0
  {
    elems == [] || (IsZero(elems[0]) && AllZeroElems(elems[1..]))
  }

  predicate AllZero(fields: seq<Field>)
    decreases fields, 0
  {
    fields == [] || (IsZero(fields[0].value) && AllZero(fields[1..]))
  }

  predicate Skipped(f: Field) {
    f.omit && IsZero(f.value)
  }

  // ----- what a value is encoded as -----

  const NIL_VALUE := Simple(NIL)
  const SELF_REF_VALUE := Simple(SELF_REF)
  const HEX_HEAD := Head(W0, SEM_HEX)

  /** The tree for a value met below the pointers `path`. */
  function Tree(heap: Heap, v: Val, path: set<nat>): Value
    decreases Addresses(heap) - path, v, 1
  {
    match v
    case VText(s) => TextTree(s)
    case VInt(n) => NumTree(n)
    case VUint(n) => NumTree(n)
    case VFloat(_, e) => e
    case VBool(b) => Simple(if b then TRUE else FALSE)
    case VBytes(_, data) => Str(false, MinHead(|data|), data)
    case VByteArray(data, readable) => if readable then Str(false, MinHead(|data|), data) else Simple(UNDEFINED)
    case VNilPointer => NIL_VALUE
    case VPointer(p) =>
      if p.addr in path then SELF_REF_VALUE
      else if p !in heap then NIL_VALUE
      else Tree(heap, heap[p], path + {p.addr})
    case VInterface(inner) => if inner.None? then NIL_VALUE else Tree(heap, inner.value, path)
    case VSlice(_, elems) => Closed(false, MinHead(|elems|), Trees(heap, elems, path))
    case VArray(elems) => Closed(false, MinHead(|elems|), Trees(heap, elems, path))
    case VMap(_, entries) => Closed(true, MinHead(|entries| / 2), Trees(heap, entries, path))
    case VStruct(fields) => Open(true, FieldTrees(heap, fields, path))
    case VFunc(_) => Simple(UNDEFINED)
    case VUintptr(n) => Sem(HEX_HEAD, NumTree(n))
  }

  function Trees(heap: Heap, vs: seq<Val>, path: set<nat>): (r: seq<Value>)
    ensures |r| == |vs|
    decreases Addresses(heap) - path, vs, 0
  {
    if vs == [] then [] else [Tree(heap, vs[0], path)] + Trees(heap, vs[1..], path)
  }

  /** Names and values of the fields; the fields of an embedded struct appear in its place. */
  function FieldTrees(heap: Heap, fields: seq<Field>, path: set<nat>): seq<Value>
    decreases Addresses(heap) - path, fields, 0
  {
    if fields == [] then []
    else
      var f := fields[0];
      (if Skipped(f) then []
       else if f.embed && f.value.VStruct? then FieldTrees(heap, f.value.fields, path)
       else
         var t := Tree(heap, f.value, path);
         [TextTree(f.name), if f.hex then Sem(HEX_HEAD, t) else t])
      + FieldTrees(heap, fields[1..], path)
  }

  /** The bytes of a value, one level down. */
  lemma TreeBytes(heap: Heap, v: Val, path: set<nat>)
    ensures var e := Enc(Tree(heap, v, path));
      match v
      case VText(s) => e == HeadBytes(Text, MinHead(|s|)) + s
      case VInt(n) => e == Enc(NumTree(n))
      case VUint(n) => e == Enc(NumTree(n))
      case VFloat(_, f) => e == Enc(f)
      case VBool(x) => e == [224 + if x then TRUE else FALSE]
      case VBytes(_, data) => e == HeadBytes(Bytes, MinHead(|data|)) + data
      case VByteArray(data, readable) =>
        e == if readable then HeadBytes(Bytes, MinHead(|data|)) + data else [224 + UNDEFINED]
      case VNilPointer => e == [224 + NIL]
      case VPointer(p) =>
        e == if p.addr in path then [224 + SELF_REF]
             else if p !in heap then [224 + NIL]
             else Enc(Tree(heap, heap[p], path + {p.addr}))
      case VInterface(inner) => e == if inner.None? then [224 + NIL] else Enc(Tree(heap, inner.value, path))
      case VSlice(_, elems) => e == Enc(Closed(false, MinHead(|elems|), Trees(heap, elems, path)))
      case VArray(elems) => e == Enc(Closed(false, MinHead(|elems|), Trees(heap, elems, path)))
      case VMap(_, entries) => e == Enc(Closed(true, MinHead(|entries| / 2), Trees(heap, entries, path)))
      case VStruct(fields) => e == [MajorCode(Map) * 32 + BREAK] + EncAll(FieldTrees(heap, fields, path)) + [BREAK_BYTE]
      case VFunc(_) => e == [224 + UNDEFINED]
      case VUintptr(n) => e == HeadBytes(Semantic, HEX_HEAD) + Enc(NumTree(n))
  {
    hide EncAll, HeadBytes, NumTree, MinHead, Trees, FieldTrees;
  }

  // ----- the encoder -----

  /** The addresses on the current path, whatever their types; one map shared by all recursive calls. */
  class PtrSet {
    var s: set<nat>
  }

  class Encoder {
    const heap: Heap

    constructor (heap: Heap)
      ensures this.heap == heap
    {
      this.heap := heap;
    }

    method appendValue(b: bytes, v: Val) returns (r: bytes)
      ensures r == b + Enc(Tree(heap, v, {}))
    {
      var visited := new PtrSet;
      visited.s := {};
      r := appendRaw(b, v, visited);
    }

    method appendRaw(b: bytes, v: Val, visited: PtrSet) returns (r: bytes)
      modifies visited
      ensures visited.s == old(visited.s)
      ensures r == b + Enc(Tree(heap, v, old(visited.s)))
      decreases Addresses(heap) - visited.s, v, 1
    {
      hide Enc, EncAll, HeadBytes, NumTree, MinHead, Tree, Trees, FieldTrees;
      TreeBytes(heap, v, visited.s);
      match v
      case VText(s) => r := b + HeadBytes(Text, MinHead(|s|)) + s;
        Assoc(b, HeadBytes(Text, MinHead(|s|)), s);
      case VInt(n) => r := b + Enc(NumTree(n));
      case VUint(n) => r := b + Enc(NumTree(n));
      case VFloat(_, e) => r := b + Enc(e);
      case VBool(x) => r := b + [224 + if x then TRUE else FALSE];
      case VBytes(_, data) => r := b + HeadBytes(Bytes, MinHead(|data|)) + data;
        Assoc(b, HeadBytes(Bytes, MinHead(|data|)), data);
      case VByteArray(data, readable) =>
        if !readable {
          return b + [224 + UNDEFINED];
        }
        r := b + HeadBytes(Bytes, MinHead(|data|)) + data;
        Assoc(b, HeadBytes(Bytes, MinHead(|data|)), data);
      case VNilPointer => r := b + [224 + NIL];
      case VPointer(p) =>
        if p.addr in visited.s {
          return b + [224 + SELF_REF];
        }
        if p !in heap {
          return b + [224 + NIL];
        }
        visited.s := visited.s + {p.addr};
        r := appendRaw(b, heap[p], visited);
        visited.s := visited.s - {p.addr};
      case VInterface(inner) =>
        if inner.None? {
          return b + [224 + NIL];
        }
        r := appendRaw(b, inner.value, visited);
      case VSlice(_, elems) => r := appendElements(b, false, |elems|, elems, visited);
      case VArray(elems) => r := appendElements(b, false, |elems|, elems, visited);
      case VMap(_, entries) => r := appendElements(b, true, |entries| / 2, entries, visited);
      case VStruct(fields) =>
        r := b + [MajorCode(Map) * 32 + BREAK];
        r := appendStructFields(r, fields, visited);
        r := r + [224 + BREAK];
        ghost var ts := EncAll(FieldTrees(heap, fields, visited.s));
        Assoc(b, [MajorCode(Map) * 32 + BREAK], ts);
        Assoc(b, [MajorCode(Map) * 32 + BREAK] + ts, [BREAK_BYTE]);
      case VFunc(_) => r := b + [224 + UNDEFINED];
      case VUintptr(n) => r := b + HeadBytes(Semantic, HEX_HEAD) + Enc(NumTree(n));
        Assoc(b, HeadBytes(Semantic, HEX_HEAD), Enc(NumTree(n)));
    }

    method appendElements(b: bytes, isMap: bool, l: nat, vs: seq<Val>, visited: PtrSet) returns (r: bytes)
      modifies visited
      ensures visited.s == old(visited.s)
      ensures r == b + Enc(Closed(isMap, MinHead(l), Trees(heap, vs, old(visited.s))))
      decreases Addresses(heap) - visited.s, vs, 2
    {
      ghost var path, all := visited.s, Trees(heap, vs, visited.s);
      var head := HeadBytes(ContainerMajor(isMap), MinHead(l));
      r := b + head;
      var i := 0;
      ghost var done: seq<Value> := [];
      assert vs[0..] == vs && done + all == all && EncAll(done) == [] && r + EncAll(done) == r;
      while i < |vs|
        invariant 0 <= i <= |vs| && visited.s == path
        invariant all == done + Trees(heap, vs[i..], path)
        invariant r == b + head + EncAll(done)
      {
        ghost var t := Tree(heap, vs[i], path);
        assert vs[i..][0] == vs[i] && vs[i..][1..] == vs[i + 1..];
        r := appendRaw(r, vs[i], visited);
        OneMore(b + head, done, [t], Trees(heap, vs[i + 1..], path));
        done := done + [t];
        i := i + 1;
      }
      assert done + [] == done;
      Assoc(b, head, EncAll(all));
    }

    method appendStructFields(b: bytes, fields: seq<Field>, visited: PtrSet) returns (r: bytes)
      modifies visited
      ensures visited.s == old(visited.s)
      ensures r == b + EncAll(FieldTrees(heap, fields, old(visited.s)))
      decreases Addresses(heap) - visited.s, fields, 2
    {
      hide Enc, EncAll, HeadBytes, IsZero, TextTree;
      ghost var path, all := visited.s, FieldTrees(heap, fields, visited.s);
      r := b;
      var i := 0;
      ghost var done: seq<Value> := [];
      Start(b, all);
      assert fields[0..] == fields;
      while i < |fields|
        invariant 0 <= i <= |fields| && visited.s == path
        invariant all == done + FieldTrees(heap, fields[i..], path)
        invariant r == b + EncAll(done)
      {
        var f := fields[i];
        assert fields[i..][0] == f && fields[i..][1..] == fields[i + 1..];
        ghost var rest := FieldTrees(heap, fields[i + 1..], path);
        i := i + 1;
        if Skipped(f) {
          assert [] + rest == rest;
          continue;
        }
        if f.embed && f.value.VStruct? {
          r := appendStructFields(r, f.value.fields, visited);
          OneMore(b, done, FieldTrees(heap, f.value.fields, path), rest);
          done := done + FieldTrees(heap, f.value.fields, path);
          continue;
        }
        r := r + Enc(TextTree(f.name));
        if f.hex {
          r := r + HeadBytes(Semantic, HEX_HEAD);
        }
        r := appendRaw(r, f.value, visited);
        ghost var t := Tree(heap, f.value, path);
        ghost var pair := [TextTree(f.name), if f.hex then Sem(HEX_HEAD, t) else t];
        FieldBytes(b + EncAll(done), f, t);
        OneMore(b, done, pair, rest);
        done := done + pair;
      }
      assert done + [] == done;
    }
  }

  lemma Start(b: bytes, all: seq<Value>)
    ensures [] + all == all && EncAll([]) == [] && b + EncAll([]) == b
  {
  }

  lemma OneMore(b: bytes, done: seq<Value>, next: seq<Value>, rest: seq<Value>)
    ensures b + EncAll(done) + EncAll(next) == b + EncAll(done + next)
    ensures done + (next + rest) == done + next + rest
    ensures |next| == 1 ==> EncAll(next) == Enc(next[0])
  {
    hide Enc, EncAll;
    EncAllConcat(done, next);
    Assoc(b, EncAll(done), EncAll(next));
    if |next| == 1 {
      assert next == [next[0]];
      EncAllOne(next[0]);
    }
  }

  lemma FieldBytes(b: bytes, f: Field, t: Value)
    ensures b + Enc(TextTree(f.name)) + (if f.hex then HeadBytes(Semantic, HEX_HEAD) else []) + Enc(t) ==
            b + EncAll([TextTree(f.name), if f.hex then Sem(HEX_HEAD, t) else t])
  {
    var n, v := TextTree(f.name), if f.hex then Sem(HEX_HEAD, t) else t;
    EncPair(n, v);
    Assoc(b, Enc(n), Enc(v));
    Assoc(b + Enc(n), HeadBytes(Semantic, HEX_HEAD), Enc(t));
  }
}
