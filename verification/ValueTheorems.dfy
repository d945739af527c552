/** Properties of value encoding on arbitrary heaps. */
module ValueTheorems {
  import opened Wire
  import opened ValueEncoder

  // ----- one well-formed value -----

  /** Sizes and numbers are those a Go program can hold. */
  ghost predicate Fits(v: Val)
    decreases v, 1
  {
    match v
    case VText(s) => |s| <= MAX_INT
    case VInt(n) => -MAX_INT - 1 <= n <= MAX_INT
    case VUint(n) => n < Pow256(8)
    case VFloat(_, e) => e.Float? && Valid(Full, e)
    case VBytes(_, data) => |data| <= MAX_INT
    case VByteArray(data, _) => |data| <= MAX_INT
    case VInterface(inner) => inner.Some? ==> Fits(inner.value)
    case VSlice(_, elems) => |elems| <= MAX_INT && FitsAll(elems)
    case VArray(elems) => |elems| <= MAX_INT && FitsAll(elems)
    case VMap(_, entries) => |entries| <= MAX_INT && |entries| % 2 == 0 && FitsAll(entries)
    case VStruct(fields) => FieldsFit(fields)
    case VUintptr(n) => n < Pow256(8)
    case _ => true
  }

  ghost predicate FitsAll(vs: seq<Val>)
    decreases vs, 0
  {
    vs == [] || (Fits(vs[0]) && FitsAll(vs[1..]))
  }

  ghost predicate FieldsFit(fields: seq<Field>)
    decreases fields, 0
  {
    fields == [] || (|fields[0].name| <= MAX_INT && Fits(fields[0].value) && FieldsFit(fields[1..]))
  }

  ghost predicate HeapFits(heap: Heap) {
    forall a | a in heap :: Fits(heap[a])
  }

  /** Whatever the heap, the result is one well-formed value of the full format. */
  lemma {:induction false} TreeValid(heap: Heap, v: Val, path: set<nat>)
    requires HeapFits(heap) && Fits(v)
    ensures Valid(Full, Tree(heap, v, path))
    decreases Addresses(heap) - path, v, 1
  {
    hide Trees, FieldTrees, FitsAll, FieldsFit, NumTree, TextTree, ValidHead;
    match v
    case VText(s) => TextValid(Full, s);
    case VInt(n) => NumValid(Full, n);
    case VUint(n) => NumValid(Full, n);
    case VUintptr(n) => NumValid(Full, n); HexValid();
    case VBytes(_, data) => TextValid(Full, data);
    case VByteArray(data, _) => TextValid(Full, data);
    case VPointer(p) =>
      if p.addr !in path && p in heap {
        TreeValid(heap, heap[p], path + {p.addr});
      }
    case VInterface(inner) =>
      if inner.Some? {
        TreeValid(heap, inner.value, path);
      }
    case VSlice(_, elems) =>
      HeadFits(|elems|);
      TreesValid(heap, elems, path);
    case VArray(elems) =>
      HeadFits(|elems|);
      TreesValid(heap, elems, path);
    case VMap(_, entries) =>
      HeadFits(|entries| / 2);
      TreesValid(heap, entries, path);
    case VStruct(fields) =>
      FieldTreesValid(heap, fields, path);
    case _ =>
  }

  lemma HexValid()
    ensures ValidHead(HEX_HEAD)
  {
  }

  lemma HeadFits(n: nat)
    requires n <= MAX_INT
    ensures ValidHead(MinHead(n)) && MinHead(n).arg == n
  {
    MinHeadValid(n);
  }

  lemma {:induction false} TreesValid(heap: Heap, vs: seq<Val>, path: set<nat>)
    requires HeapFits(heap) && FitsAll(vs)
    ensures ValidAll(Full, Trees(heap, vs, path))
    decreases Addresses(heap) - path, vs, 0
  {
    hide Fits, Tree, Valid;
    if vs != [] {
      TreeValid(heap, vs[0], path);
      TreesValid(heap, vs[1..], path);
    }
  }

  lemma {:induction false} FieldTreesValid(heap: Heap, fields: seq<Field>, path: set<nat>)
    requires HeapFits(heap) && FieldsFit(fields)
    ensures ValidAll(Full, FieldTrees(heap, fields, path)) && |FieldTrees(heap, fields, path)| % 2 == 0
    decreases Addresses(heap) - path, fields, 0
  {
    hide Tree, FieldTrees, Valid, TextTree, Fits, ValidAll, IsZero;
    FieldTreesStep(heap, fields, path);
    EmptyValid();
    if fields != [] {
      var f := fields[0];
      var rest := FieldTrees(heap, fields[1..], path);
      FieldTreesValid(heap, fields[1..], path);
      if !Skipped(f) {
        if f.embed && f.value.VStruct? {
          FitsStruct(f.value);
          FieldTreesValid(heap, f.value.fields, path);
          ValidAllConcat(Full, FieldTrees(heap, f.value.fields, path), rest);
        } else {
          TextValid(Full, f.name);
          TreeValid(heap, f.value, path);
          var t := Tree(heap, f.value, path);
          HexTagValid(t);
          var pair := [TextTree(f.name), if f.hex then Sem(HEX_HEAD, t) else t];
          ValidPair(Full, pair[0], pair[1]);
          ValidAllConcat(Full, pair, rest);
        }
      }
    }
  }

  lemma FieldTreesStep(heap: Heap, fields: seq<Field>, path: set<nat>)
    ensures fields == [] ==> FieldTrees(heap, fields, path) == []
    ensures fields != [] ==>
      var f, rest := fields[0], FieldTrees(heap, fields[1..], path);
      FieldTrees(heap, fields, path) ==
        if Skipped(f) then rest
        else if f.embed && f.value.VStruct? then FieldTrees(heap, f.value.fields, path) + rest
        else
          var t := Tree(heap, f.value, path);
          [TextTree(f.name), if f.hex then Sem(HEX_HEAD, t) else t] + rest
  {
    hide Tree, Skipped, TextTree;
    if fields != [] {
      assert [] + FieldTrees(heap, fields[1..], path) == FieldTrees(heap, fields[1..], path);
    }
  }

  lemma FitsStruct(v: Val)
    requires v.VStruct? && Fits(v)
    ensures FieldsFit(v.fields)
  {
  }

  lemma EmptyValid()
    ensures ValidAll(Full, [])
  {
  }

  lemma HexTagValid(t: Value)
    requires Valid(Full, t)
    ensures Valid(Full, Sem(HEX_HEAD, t))
  {
    HexValid();
  }

  // ----- self references -----

  /** The pointers a value holds inline. */
  ghost function Pointers(v: Val): set<Ptr>
    decreases v, 1
  {
    match v
    case VPointer(p) => {p}
    case VInterface(inner) => if inner.None? then {} else Pointers(inner.value)
    case VSlice(_, elems) => PointersOfAll(elems)
    case VArray(elems) => PointersOfAll(elems)
    case VMap(_, entries) => PointersOfAll(entries)
    case VStruct(fields) => PointersOfFields(fields)
    case _ => {}
  }

  ghost function PointersOfAll(vs: seq<Val>): set<Ptr>
    decreases vs, 0
  {
    if vs == [] then {} else Pointers(vs[0]) + PointersOfAll(vs[1..])
  }

  ghost function PointersOfFields(fields: seq<Field>): set<Ptr>
    decreases fields, 0
  {
    if fields == [] then {}
    else (if Skipped(fields[0]) then {} else Pointers(fields[0].value)) + PointersOfFields(fields[1..])
  }

  ghost predicate HasSelfRef(t: Value)
    decreases t, 1
  {
    match t
    case Closed(_, _, items) => AnySelfRef(items)
    case Open(_, items) => AnySelfRef(items)
    case Sem(_, inner) => HasSelfRef(inner)
    case Simple(sub) => sub == SELF_REF
    case _ => false
  }

  ghost predicate AnySelfRef(ts: seq<Value>)
    decreases ts, 0
  {
    ts != [] && (HasSelfRef(ts[0]) || AnySelfRef(ts[1..]))
  }

  /** Self references are all that a stream reader does not know of what is written. */
  lemma {:induction false} ForeignIsSelfRef(heap: Heap, v: Val, path: set<nat>)
    requires HeapFits(heap) && Fits(v)
    ensures Foreign(Tree(heap, v, path)) <==> HasSelfRef(Tree(heap, v, path))
    decreases Addresses(heap) - path, v, 1
  {
    hide Trees, FieldTrees, FitsAll, FieldsFit, NumTree, TextTree, ForeignAll, AnySelfRef;
    PlainTrees(0, []);
    PlainForeign(0, []);
    match v
    case VInt(n) => PlainTrees(n, []); PlainForeign(n, []);
    case VUint(n) => PlainTrees(n, []); PlainForeign(n, []);
    case VUintptr(n) => PlainTrees(n, []); PlainForeign(n, []);
    case VText(s) => PlainTrees(0, s); PlainForeign(0, s);
    case VPointer(p) =>
      if p.addr !in path && p in heap {
        ForeignIsSelfRef(heap, heap[p], path + {p.addr});
      }
    case VInterface(inner) =>
      if inner.Some? {
        ForeignIsSelfRef(heap, inner.value, path);
      }
    case VSlice(_, elems) => ForeignInTrees(heap, elems, path);
    case VArray(elems) => ForeignInTrees(heap, elems, path);
    case VMap(_, entries) => ForeignInTrees(heap, entries, path);
    case VStruct(fields) => ForeignInFields(heap, fields, path);
    case _ =>
  }

  lemma PlainForeign(n: int, s: bytes)
    ensures !Foreign(NumTree(n)) && !Foreign(TextTree(s))
  {
  }

  lemma {:induction false} ForeignInTrees(heap: Heap, vs: seq<Val>, path: set<nat>)
    requires HeapFits(heap) && FitsAll(vs)
    ensures ForeignAll(Trees(heap, vs, path)) <==> AnySelfRef(Trees(heap, vs, path))
    decreases Addresses(heap) - path, vs, 0
  {
    hide Fits, Tree, Foreign, HasSelfRef;
    if vs != [] {
      ForeignIsSelfRef(heap, vs[0], path);
      ForeignInTrees(heap, vs[1..], path);
    }
  }

  lemma {:induction false} ForeignInFields(heap: Heap, fields: seq<Field>, path: set<nat>)
    requires HeapFits(heap) && FieldsFit(fields)
    ensures ForeignAll(FieldTrees(heap, fields, path)) <==> AnySelfRef(FieldTrees(heap, fields, path))
    decreases Addresses(heap) - path, fields, 0
  {
    hide Tree, FieldTrees, Fits, IsZero;
    FieldTreesStep(heap, fields, path);
    if fields != [] {
      var f, rest := fields[0], FieldTrees(heap, fields[1..], path);
      ForeignInFields(heap, fields[1..], path);
      if !Skipped(f) {
        if f.embed && f.value.VStruct? {
          FitsStruct(f.value);
          ForeignInFields(heap, f.value.fields, path);
          AnySelfRefConcat(FieldTrees(heap, f.value.fields, path), rest);
          ForeignConcat(FieldTrees(heap, f.value.fields, path), rest);
        } else {
          var t := Tree(heap, f.value, path);
          ForeignIsSelfRef(heap, f.value, path);
          PairSelfRef(f, t, rest);
          PairForeign(f, t, rest);
        }
      }
    }
  }

  lemma {:induction false} ForeignConcat(xs: seq<Value>, ys: seq<Value>)
    ensures ForeignAll(xs + ys) <==> ForeignAll(xs) || ForeignAll(ys)
  {
    if xs == [] {
      assert xs + ys == ys;
    } else {
      assert (xs + ys)[1..] == xs[1..] + ys;
      ForeignConcat(xs[1..], ys);
    }
  }

  lemma PairForeign(f: Field, t: Value, rest: seq<Value>)
    ensures ForeignAll([TextTree(f.name), if f.hex then Sem(HEX_HEAD, t) else t] + rest)
            <==> Foreign(t) || ForeignAll(rest)
  {
    var pair := [TextTree(f.name), if f.hex then Sem(HEX_HEAD, t) else t];
    ForeignConcat(pair, rest);
    PlainForeign(0, f.name);
    assert pair[1..] == [pair[1]] && [pair[1]][1..] == [];
    assert Foreign(pair[1]) <==> Foreign(t);
  }

  /** Following the pointers `p` one after the other from `v`, the last one is the first whose address is on the
      path. */
  ghost predicate MetAgain(heap: Heap, v: Val, path: set<nat>, p: seq<Ptr>)
    decreases |p|
  {
    && p != [] && p[0] in Pointers(v)
    && if |p| == 1 then p[0].addr in path
       else p[0].addr !in path && p[0] in heap && MetAgain(heap, heap[p[0]], path + {p[0].addr}, p[1..])
  }

  lemma {:induction false} AnySelfRefConcat(xs: seq<Value>, ys: seq<Value>)
    ensures AnySelfRef(xs + ys) <==> AnySelfRef(xs) || AnySelfRef(ys)
  {
    if xs == [] {
      assert xs + ys == ys;
    } else {
      assert (xs + ys)[1..] == xs[1..] + ys;
      AnySelfRefConcat(xs[1..], ys);
    }
  }

  /** `p` starts at an inline pointer and leads back onto the path. */
  lemma {:induction false} MetAgainMeansSelfRef(heap: Heap, v: Val, path: set<nat>, p: seq<Ptr>)
    requires MetAgain(heap, v, path, p)
    ensures HasSelfRef(Tree(heap, v, path))
    decreases |p|, v, 1
  {
    hide Trees, FieldTrees, PointersOfAll, PointersOfFields, AnySelfRef, MetAgain, NumTree, TextTree;
    Unfold(heap, v, path, p);
    match v
    case VPointer(a) =>
      if |p| > 1 {
        MetAgainMeansSelfRef(heap, heap[a], path + {a.addr}, p[1..]);
      }
    case VInterface(inner) =>
      Refold(heap, v, inner.value, path, p);
      MetAgainMeansSelfRef(heap, inner.value, path, p);
    case VSlice(_, elems) => MetAgainInAll(heap, v, elems, path, p);
    case VArray(elems) => MetAgainInAll(heap, v, elems, path, p);
    case VMap(_, entries) => MetAgainInAll(heap, v, entries, path, p);
    case VStruct(fields) => MetAgainInFields(heap, v, fields, path, p);
    case _ =>
  }

  lemma Unfold(heap: Heap, v: Val, path: set<nat>, p: seq<Ptr>)
    requires MetAgain(heap, v, path, p)
    ensures p != [] && p[0] in Pointers(v)
    ensures if |p| == 1 then p[0].addr in path
            else p[0].addr !in path && p[0] in heap && MetAgain(heap, heap[p[0]], path + {p[0].addr}, p[1..])
  {
  }

  /** Only the first pointer depends on the value. */
  lemma Refold(heap: Heap, v: Val, w: Val, path: set<nat>, p: seq<Ptr>)
    requires MetAgain(heap, v, path, p) && p != [] && p[0] in Pointers(w)
    ensures MetAgain(heap, w, path, p)
  {
  }

  lemma {:induction false} MetAgainInAll(heap: Heap, v: Val, vs: seq<Val>, path: set<nat>, p: seq<Ptr>)
    requires MetAgain(heap, v, path, p) && p != [] && p[0] in PointersOfAll(vs)
    ensures AnySelfRef(Trees(heap, vs, path))
    decreases |p|, vs, 0
  {
    hide Tree, HasSelfRef, MetAgain, Pointers;
    if p[0] in Pointers(vs[0]) {
      Refold(heap, v, vs[0], path, p);
      MetAgainMeansSelfRef(heap, vs[0], path, p);
    } else {
      MetAgainInAll(heap, v, vs[1..], path, p);
    }
  }

  lemma {:induction false} MetAgainInFields(heap: Heap, v: Val, fields: seq<Field>, path: set<nat>, p: seq<Ptr>)
    requires MetAgain(heap, v, path, p) && p != [] && p[0] in PointersOfFields(fields)
    ensures AnySelfRef(FieldTrees(heap, fields, path))
    decreases |p|, fields, 0
  {
    hide Tree, MetAgain, Skipped;
    var f := fields[0];
    var rest := FieldTrees(heap, fields[1..], path);
    if !Skipped(f) && p[0] in Pointers(f.value) {
      if f.embed && f.value.VStruct? {
        MetAgainInFields(heap, v, f.value.fields, path, p);
        AnySelfRefConcat(FieldTrees(heap, f.value.fields, path), rest);
      } else {
        Refold(heap, v, f.value, path, p);
        MetAgainMeansSelfRef(heap, f.value, path, p);
        var t := Tree(heap, f.value, path);
        PairSelfRef(f, t, rest);
      }
    } else {
      MetAgainInFields(heap, v, fields[1..], path, p);
      if Skipped(f) {
        assert [] + rest == rest;
      } else if f.embed && f.value.VStruct? {
        AnySelfRefConcat(FieldTrees(heap, f.value.fields, path), rest);
      } else {
        PairSelfRef(f, Tree(heap, f.value, path), rest);
      }
    }
  }

  lemma PairSelfRef(f: Field, t: Value, rest: seq<Value>)
    ensures AnySelfRef([TextTree(f.name), if f.hex then Sem(HEX_HEAD, t) else t] + rest)
            <==> HasSelfRef(t) || AnySelfRef(rest)
  {
    var pair := [TextTree(f.name), if f.hex then Sem(HEX_HEAD, t) else t];
    AnySelfRefConcat(pair, rest);
    PlainTrees(0, f.name);
    assert pair[1..] == [pair[1]] && [pair[1]][1..] == [];
    assert HasSelfRef(pair[1]) <==> HasSelfRef(t);
  }

  /** Every self reference comes from a pointer met again. */
  lemma {:induction false} SelfRefMeansMetAgain(heap: Heap, v: Val, path: set<nat>) returns (p: seq<Ptr>)
    requires HeapFits(heap) && Fits(v) && HasSelfRef(Tree(heap, v, path))
    ensures MetAgain(heap, v, path, p)
    decreases Addresses(heap) - path, v, 1
  {
    hide Trees, FieldTrees, PointersOfAll, PointersOfFields, AnySelfRef, NumTree, TextTree, FitsAll, FieldsFit, Valid;
    match v
    case VText(s) => PlainTrees(0, s); p := [];
    case VInt(n) => PlainTrees(n, []); p := [];
    case VUint(n) => PlainTrees(n, []); p := [];
    case VUintptr(n) => PlainTrees(n, []); p := [];
    case VPointer(a) =>
      if a.addr in path {
        p := [a];
      } else {
        assert a in heap;
        p := SelfRefMeansMetAgain(heap, heap[a], path + {a.addr});
        p := [a] + p;
        assert p[1..] == p[1..];
      }
    case VInterface(inner) => p := SelfRefMeansMetAgain(heap, inner.value, path); Refold(heap, inner.value, v, path, p);
    case VSlice(_, elems) => p := SelfRefInAll(heap, v, elems, path);
    case VArray(elems) => p := SelfRefInAll(heap, v, elems, path);
    case VMap(_, entries) => p := SelfRefInAll(heap, v, entries, path);
    case VStruct(fields) => p := SelfRefInFields(heap, v, fields, path);
    case _ => p := [];
  }

  lemma PlainTrees(n: int, s: bytes)
    ensures !HasSelfRef(NumTree(n)) && !HasSelfRef(TextTree(s))
  {
  }

  lemma {:induction false} SelfRefInAll(heap: Heap, v: Val, vs: seq<Val>, path: set<nat>) returns (p: seq<Ptr>)
    requires HeapFits(heap) && FitsAll(vs) && AnySelfRef(Trees(heap, vs, path)) && PointersOfAll(vs) <= Pointers(v)
    ensures MetAgain(heap, v, path, p)
    decreases Addresses(heap) - path, vs, 0
  {
    hide Tree, HasSelfRef, Pointers, Fits;
    if HasSelfRef(Tree(heap, vs[0], path)) {
      p := SelfRefMeansMetAgain(heap, vs[0], path);
      Refold(heap, vs[0], v, path, p);
    } else {
      p := SelfRefInAll(heap, v, vs[1..], path);
    }
  }

  lemma {:induction false} SelfRefInFields(heap: Heap, v: Val, fields: seq<Field>, path: set<nat>) returns (p: seq<Ptr>)
    requires HeapFits(heap) && FieldsFit(fields) && AnySelfRef(FieldTrees(heap, fields, path))
    requires PointersOfFields(fields) <= Pointers(v)
    ensures MetAgain(heap, v, path, p)
    decreases Addresses(heap) - path, fields, 0
  {
    hide Tree, Skipped;
    var f := fields[0];
    var rest := FieldTrees(heap, fields[1..], path);
    if Skipped(f) {
      assert [] + rest == rest;
    } else if f.embed && f.value.VStruct? {
      AnySelfRefConcat(FieldTrees(heap, f.value.fields, path), rest);
      if AnySelfRef(FieldTrees(heap, f.value.fields, path)) {
        FitsStruct(f.value);
        p := SelfRefInFields(heap, v, f.value.fields, path);
        return;
      }
    } else {
      PairSelfRef(f, Tree(heap, f.value, path), rest);
      if HasSelfRef(Tree(heap, f.value, path)) {
        p := SelfRefMeansMetAgain(heap, f.value, path);
        Refold(heap, f.value, v, path, p);
        return;
      }
    }
    p := SelfRefInFields(heap, v, fields[1..], path);
  }

  // ----- in terms of walks through the heap -----

  /** `p` are pointers followed one after the other, starting in `v`. */
  ghost predicate Walk(heap: Heap, v: Val, p: seq<Ptr>)
    decreases |p|
  {
    p == [] || (p[0] in Pointers(v) && (|p| == 1 || (p[0] in heap && Walk(heap, heap[p[0]], p[1..]))))
  }

  /** The walk comes to an address twice, or to one of `path`. */
  ghost predicate Returns(p: seq<Ptr>, path: set<nat>) {
    || (exists j :: 0 <= j < |p| && p[j].addr in path)
    || (exists i, j :: 0 <= i < j < |p| && p[i].addr == p[j].addr)
  }

  lemma {:induction false} MetAgainIsWalk(heap: Heap, v: Val, path: set<nat>, p: seq<Ptr>)
    requires MetAgain(heap, v, path, p)
    ensures Walk(heap, v, p) && Returns(p, path)
    decreases |p|
  {
    if |p| > 1 {
      MetAgainIsWalk(heap, heap[p[0]], path + {p[0].addr}, p[1..]);
      var q := p[1..];
      if j :| 0 <= j < |q| && q[j].addr in path + {p[0].addr} {
        assert p[j + 1] == q[j];
        if q[j].addr !in path {
          assert p[0].addr == p[j + 1].addr;
        }
      } else {
        var i, j :| 0 <= i < j < |q| && q[i].addr == q[j].addr;
        assert p[i + 1] == q[i] && p[j + 1] == q[j];
      }
    }
  }

  lemma {:induction false} WalkIsMetAgain(heap: Heap, v: Val, path: set<nat>, p: seq<Ptr>, i: int, j: nat)
    returns (q: seq<Ptr>)
    requires Walk(heap, v, p) && j < |p|
    requires p[j].addr in path || (0 <= i < j && p[i].addr == p[j].addr)
    ensures MetAgain(heap, v, path, q)
    decreases |p|
  {
    if p[0].addr in path {
      q := [p[0]];
    } else {
      q := WalkIsMetAgain(heap, heap[p[0]], path + {p[0].addr}, p[1..], i - 1, j - 1);
      q := [p[0]] + q;
      assert q[1..] == q[1..];
    }
  }

  /** A self reference is written exactly when some walk through the pointers comes to an address twice, or to one
      that is on the path already. */
  lemma SelfRefIffReturn(heap: Heap, v: Val, path: set<nat>)
    requires HeapFits(heap) && Fits(v)
    ensures HasSelfRef(Tree(heap, v, path)) <==> exists p :: Walk(heap, v, p) && Returns(p, path)
  {
    if HasSelfRef(Tree(heap, v, path)) {
      var p := SelfRefMeansMetAgain(heap, v, path);
      MetAgainIsWalk(heap, v, path, p);
    }
    if p: seq<Ptr> :| Walk(heap, v, p) && Returns(p, path) {
      var q;
      if j :| 0 <= j < |p| && p[j].addr in path {
        q := WalkIsMetAgain(heap, v, path, p, -1, j);
      } else {
        var i, j :| 0 <= i < j < |p| && p[i].addr == p[j].addr;
        q := WalkIsMetAgain(heap, v, path, p, i, j);
      }
      MetAgainMeansSelfRef(heap, v, path, q);
    }
  }

  // ----- shared nodes -----

  /** Where no self reference is written, the path above makes no difference: a shared node is written in full. */
  lemma {:induction false} NoSelfRefInFull(heap: Heap, v: Val, path: set<nat>, other: set<nat>)
    requires other <= path && !HasSelfRef(Tree(heap, v, path))
    ensures Tree(heap, v, other) == Tree(heap, v, path)
    decreases Addresses(heap) - other, v, 1
  {
    hide Trees, FieldTrees, NumTree, TextTree, AnySelfRef;
    match v
    case VPointer(a) =>
      if a in heap {
        NoSelfRefInFull(heap, heap[a], path + {a.addr}, other + {a.addr});
      }
    case VInterface(inner) => if inner.Some? { NoSelfRefInFull(heap, inner.value, path, other); }
    case VSlice(_, elems) => NoSelfRefInFullAll(heap, elems, path, other);
    case VArray(elems) => NoSelfRefInFullAll(heap, elems, path, other);
    case VMap(_, entries) => NoSelfRefInFullAll(heap, entries, path, other);
    case VStruct(fields) => NoSelfRefInFullFields(heap, fields, path, other);
    case _ =>
  }

  lemma {:induction false} NoSelfRefInFullAll(heap: Heap, vs: seq<Val>, path: set<nat>, other: set<nat>)
    requires other <= path && !AnySelfRef(Trees(heap, vs, path))
    ensures Trees(heap, vs, other) == Trees(heap, vs, path)
    decreases Addresses(heap) - other, vs, 0
  {
    hide Tree, HasSelfRef;
    if vs != [] {
      NoSelfRefInFull(heap, vs[0], path, other);
      NoSelfRefInFullAll(heap, vs[1..], path, other);
    }
  }

  lemma {:induction false} NoSelfRefInFullFields(heap: Heap, fields: seq<Field>, path: set<nat>, other: set<nat>)
    requires other <= path && !AnySelfRef(FieldTrees(heap, fields, path))
    ensures FieldTrees(heap, fields, other) == FieldTrees(heap, fields, path)
    decreases Addresses(heap) - other, fields, 0
  {
    hide Tree, FieldTrees, Skipped, AnySelfRef, HasSelfRef, TextTree;
    FieldTreesStep(heap, fields, path);
    FieldTreesStep(heap, fields, other);
    if fields != [] {
      var f, rest := fields[0], FieldTrees(heap, fields[1..], path);
      if Skipped(f) {
        NoSelfRefInFullFields(heap, fields[1..], path, other);
      } else if f.embed && f.value.VStruct? {
        AnySelfRefConcat(FieldTrees(heap, f.value.fields, path), rest);
        NoSelfRefInFullFields(heap, fields[1..], path, other);
        NoSelfRefInFullFields(heap, f.value.fields, path, other);
      } else {
        PairSelfRef(f, Tree(heap, f.value, path), rest);
        NoSelfRefInFullFields(heap, fields[1..], path, other);
        NoSelfRefInFull(heap, f.value, path, other);
      }
    }
  }

  /** A stream reader can read an encoded value exactly when no walk through its pointers comes to an address twice, or
      to one on the path. */
  lemma ReadableIffNoReturn(heap: Heap, v: Val, path: set<nat>)
    requires HeapFits(heap) && Fits(v)
    ensures Valid(Stream, Tree(heap, v, path)) <==> !exists p :: Walk(heap, v, p) && Returns(p, path)
  {
    hide Walk, Returns, Tree, HasSelfRef, Foreign, Valid;
    TreeValid(heap, v, path);
    StreamUnlessForeign(Tree(heap, v, path));
    ForeignIsSelfRef(heap, v, path);
    SelfRefIffReturn(heap, v, path);
  }

  /** A value met below `path` is written in full, as it is on its own, without any self reference, exactly when no
      walk from it comes to an address twice or to one of `path`. */
  lemma WrittenInFullIff(heap: Heap, v: Val, path: set<nat>)
    requires HeapFits(heap) && Fits(v)
    ensures Tree(heap, v, path) == Tree(heap, v, {}) && !HasSelfRef(Tree(heap, v, path)) <==>
            !exists p :: Walk(heap, v, p) && Returns(p, path)
  {
    SelfRefIffReturn(heap, v, path);
    if !HasSelfRef(Tree(heap, v, path)) {
      NoSelfRefInFull(heap, v, path, {});
    }
  }

  /** Pointers lead to addresses of smaller ranks. */
  ghost predicate Ranked(heap: Heap, rank: nat -> nat) {
    forall a, b | a in heap && b in Pointers(heap[a]) :: rank(b.addr) < rank(a.addr)
  }

  lemma {:induction false} RanksFall(heap: Heap, rank: nat -> nat, n: nat, v: Val, p: seq<Ptr>)
    requires Ranked(heap, rank) && Walk(heap, v, p) && forall b | b in Pointers(v) :: rank(b.addr) < n
    ensures forall i | 0 <= i < |p| :: rank(p[i].addr) < n
    ensures forall i, j | 0 <= i < j < |p| :: rank(p[j].addr) < rank(p[i].addr)
    decreases |p|
  {
    if |p| > 1 {
      RanksFall(heap, rank, rank(p[0].addr), heap[p[0]], p[1..]);
      assert forall i | 1 <= i < |p| :: p[i] == p[1..][i - 1];
    }
  }

  /** A heap whose addresses can be ranked so that pointers lead downwards has no such walks: below addresses of higher
      rank, every occurrence of a shared node is written in full. */
  lemma SharedInFull(heap: Heap, rank: nat -> nat, n: nat, v: Val, path: set<nat>)
    requires HeapFits(heap) && Fits(v) && Ranked(heap, rank)
    requires (forall a | a in path :: n <= rank(a)) && (forall b | b in Pointers(v) :: rank(b.addr) < n)
    ensures Tree(heap, v, path) == Tree(heap, v, {}) && !HasSelfRef(Tree(heap, v, path))
  {
    hide Walk, Tree, HasSelfRef, Ranked;
    WrittenInFullIff(heap, v, path);
    if p: seq<Ptr> :| Walk(heap, v, p) && Returns(p, path) {
      RanksFall(heap, rank, n, v, p);
      assert false;
    }
  }

  /** A struct `{x: {n: 0}, f: pointer}` at address 1, whose pointer leads to its own first field, at address 1 too. */
  function Inner(n: bytes): Val { VStruct([Field(n, false, false, false, VInt(0))]) }

  function Outer(x: bytes, n: bytes, f: bytes): Val {
    VStruct([Field(x, false, false, false, Inner(n)), Field(f, false, false, false, VPointer(Ptr(1, 1)))])
  }

  function FirstFieldHeap(x: bytes, n: bytes, f: bytes): Heap {
    map[Ptr(1, 0) := Outer(x, n, f), Ptr(1, 1) := Inner(n)]
  }

  /** No walk comes to one pointer twice, and yet the pointer to the field is written as a self reference. */
  lemma FirstFieldIsCut(x: bytes, n: bytes, f: bytes)
    ensures var heap, v := FirstFieldHeap(x, n, f), VPointer(Ptr(1, 0));
            && (forall p, i, j | Walk(heap, v, p) && 0 <= i < j < |p| :: p[i] != p[j])
            && Tree(heap, v, {}) ==
                 Open(true, [TextTree(x), Open(true, [TextTree(n), NumTree(0)]), TextTree(f), SELF_REF_VALUE])
            && Tree(heap, VPointer(Ptr(1, 1)), {}) == Open(true, [TextTree(n), NumTree(0)])
  {
    hide Walk, TextTree, NumTree;
    FirstFieldTree(x, n, f);
    forall p, i, j | Walk(FirstFieldHeap(x, n, f), VPointer(Ptr(1, 0)), p) && 0 <= i < j < |p|
      ensures p[i] != p[j]
    {
      FirstFieldWalk(x, n, f, p);
    }
  }

  lemma FirstFieldTree(x: bytes, n: bytes, f: bytes)
    ensures var heap := FirstFieldHeap(x, n, f);
            && Tree(heap, VPointer(Ptr(1, 0)), {}) ==
               Open(true, [TextTree(x), Open(true, [TextTree(n), NumTree(0)]), TextTree(f), SELF_REF_VALUE])
            && Tree(heap, VPointer(Ptr(1, 1)), {}) == Open(true, [TextTree(n), NumTree(0)])
  {
    hide TextTree, NumTree;
    var heap, fields, both := FirstFieldHeap(x, n, f), Inner(n).fields, Outer(x, n, f).fields;
    assert fields[1..] == [] && both[1..] == [both[1]] && [both[1]][1..] == [] && {} + {1} == {1};
    assert FieldTrees(heap, fields, {1}) == [TextTree(n), NumTree(0)];
    assert FieldTrees(heap, [both[1]], {1}) == [TextTree(f), SELF_REF_VALUE];
    assert FieldTrees(heap, both, {1}) ==
           [TextTree(x), Open(true, [TextTree(n), NumTree(0)])] + [TextTree(f), SELF_REF_VALUE];
  }

  lemma FirstFieldWalk(x: bytes, n: bytes, f: bytes, p: seq<Ptr>)
    requires Walk(FirstFieldHeap(x, n, f), VPointer(Ptr(1, 0)), p) && |p| > 1
    ensures p == [Ptr(1, 0), Ptr(1, 1)]
  {
    hide Pointers, PointersOfFields;
    StructPointers(x, n, f);
    var heap, q := FirstFieldHeap(x, n, f), p[1..];
    assert p[0] == Ptr(1, 0) && Walk(heap, Outer(x, n, f), q) && q[0] == Ptr(1, 1);
    NowhereToGo(heap, Inner(n), q[1..]);
  }

  lemma NowhereToGo(heap: Heap, v: Val, p: seq<Ptr>)
    requires Pointers(v) == {}
    ensures Walk(heap, v, p) <==> p == []
  {
  }

  lemma StructPointers(x: bytes, n: bytes, f: bytes)
    ensures Pointers(Inner(n)) == {} && Pointers(Outer(x, n, f)) == {Ptr(1, 1)}
    ensures forall a: Ptr :: Pointers(VPointer(a)) == {a}
  {
    var fields, both := Inner(n).fields, Outer(x, n, f).fields;
    assert fields[1..] == [] && both[1..] == [both[1]] && [both[1]][1..] == [];
    assert PointersOfFields(fields) == Pointers(VInt(0)) + PointersOfFields([]) == {};
    assert PointersOfFields([both[1]]) == Pointers(VPointer(Ptr(1, 1))) + PointersOfFields([]) == {Ptr(1, 1)};
    assert PointersOfFields(both) == Pointers(Inner(n)) + PointersOfFields([both[1]]);
  }
}
