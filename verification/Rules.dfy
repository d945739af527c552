/** Rename rules of the key renamer: kept sorted by path and looked up by binary search. */
module Rules {
  import opened Wire

  type Path = seq<bytes>

  /** `rename`: None keeps the key. */
  datatype Rule = Rule(path: Path, rename: Option<bytes>, prefix: bytes, remove: bool)

  // ----- the order on paths -----

  /** `bytes.Compare`. */
  function CmpBytes(x: bytes, y: bytes): (r: int)
    ensures -1 <= r <= 1
    ensures r == 0 <==> x == y
  {
    if x == [] || y == [] then (if x == y then 0 else if x == [] then -1 else 1)
    else if x[0] != y[0] then (if x[0] < y[0] then -1 else 1)
    else
      assert x == [x[0]] + x[1..] && y == [y[0]] + y[1..];
      CmpBytes(x[1..], y[1..])
  }

  function Cmp(x: Path, y: Path): (r: int)
    ensures -1 <= r <= 1
    ensures r == 0 <==> x == y
  {
    if x == [] || y == [] then (if x == y then 0 else if x == [] then -1 else 1)
    else
      var c := CmpBytes(x[0], y[0]);
      assert x == [x[0]] + x[1..] && y == [y[0]] + y[1..];
      if c != 0 then c else Cmp(x[1..], y[1..])
  }

  lemma {:induction false} CmpBytesOrder(x: bytes, y: bytes, z: bytes)
    ensures CmpBytes(y, x) == -CmpBytes(x, y)
    ensures CmpBytes(x, y) <= 0 && CmpBytes(y, z) <= 0 ==> CmpBytes(x, z) <= 0
  {
    if x != [] && y != [] && x[0] == y[0] {
      CmpBytesOrder(x[1..], y[1..], if z == [] then [] else z[1..]);
    }
  }

  /** `Cmp` is a total order. */
  lemma {:induction false} CmpOrder(x: Path, y: Path, z: Path)
    ensures Cmp(y, x) == -Cmp(x, y)
    ensures Cmp(x, y) <= 0 && Cmp(y, z) <= 0 ==> Cmp(x, z) <= 0
  {
    if x != [] && y != [] {
      CmpBytesOrder(x[0], y[0], if z == [] then [] else z[0]);
      if z != [] {
        CmpBytesOrder(y[0], z[0], x[0]);
        CmpBytesOrder(z[0], x[0], y[0]);
        CmpBytesOrder(x[0], z[0], y[0]);
      }
      CmpOrder(x[1..], y[1..], if z == [] then [] else z[1..]);
    }
  }

  /** Byte strings are ordered by the first byte in which they differ, and a prefix comes first. */
  lemma {:induction false} BytesAtDifference(x: bytes, y: bytes, k: nat)
    requires k <= |x| && k < |y| && x[..k] == y[..k] && (k < |x| ==> x[k] < y[k])
    ensures CmpBytes(x, y) == -1 && CmpBytes(y, x) == 1
  {
    if k > 0 {
      assert x[0] == x[..k][0] == y[..k][0] == y[0];
      assert x[1..][..k - 1] == x[..k][1..] == y[1..][..k - 1];
      BytesAtDifference(x[1..], y[1..], k - 1);
    }
  }

  /** Paths are ordered by the first element in which they differ, and a prefix comes first. */
  lemma {:induction false} PathsAtDifference(x: Path, y: Path, k: nat)
    requires k <= |x| && k < |y| && x[..k] == y[..k] && (k < |x| ==> CmpBytes(x[k], y[k]) == -1)
    ensures Cmp(x, y) == -1
  {
    if k > 0 {
      assert x[0] == x[..k][0] == y[..k][0] == y[0];
      assert x[1..][..k - 1] == x[..k][1..] == y[1..][..k - 1];
      PathsAtDifference(x[1..], y[1..], k - 1);
    }
  }

  /** The comparison as the renamer computes it, element by element. */
  method cmp(x: Path, y: Path) returns (r: int)
    ensures r == Cmp(x, y)
  {
    var i := 0;
    while i < |x| && i < |y|
      invariant 0 <= i <= |x| && i <= |y|
      invariant Cmp(x, y) == Cmp(x[i..], y[i..])
    {
      r := CmpBytes(x[i], y[i]);
      if r != 0 {
        return;
      }
      i := i + 1;
    }
    if |x| != |y| {
      return if |x| < |y| then -1 else 1;
    }
    return 0;
  }

  ghost predicate Sorted(rules: seq<Rule>) {
    forall i, j | 0 <= i < j < |rules| :: Cmp(rules[i].path, rules[j].path) <= 0
  }

  ghost predicate Distinct(rules: seq<Rule>) {
    forall i, j | 0 <= i < j < |rules| :: rules[i].path != rules[j].path
  }

  // ----- lookup -----

  /** The rule for a path, by a linear scan. */
  function Lookup(rules: seq<Rule>, path: Path): (r: Option<Rule>)
    ensures r.Some? ==> r.value in rules && r.value.path == path
    ensures r.None? ==> forall x :: x in rules ==> x.path != path
  {
    if rules == [] then None
    else if rules[0].path == path then Some(rules[0])
    else Lookup(rules[1..], path)
  }

  /** With distinct paths the order of the rules does not matter for the scan. */
  lemma LookupPermuted(rules: seq<Rule>, others: seq<Rule>, path: Path)
    requires Distinct(rules) && multiset(rules) == multiset(others)
    ensures Lookup(rules, path) == Lookup(others, path)
  {
    var a, b := Lookup(rules, path), Lookup(others, path);
    assert forall x :: x in rules <==> x in multiset(rules);
    assert forall x :: x in others <==> x in multiset(others);
    if a.Some? && b.Some? {
      assert b.value in rules;
    }
  }

  class KeyRenamer {
    var rules: seq<Rule>

    ghost predicate Valid()
      reads this
    {
      Sorted(rules)
    }

    constructor (rules: seq<Rule>)
      ensures Valid() && multiset(this.rules) == multiset(rules)
    {
      this.rules := [];
      new;
      Append(rules);
      assert [] + rules == rules;
    }

    /** Adds rules and sorts all of them again. */
    method Append(more: seq<Rule>)
      modifies this
      ensures Valid() && multiset(rules) == multiset(old(rules) + more)
    {
      var all := rules + more;
      var sorted: seq<Rule> := [];
      var n := 0;
      while n < |all|
        invariant 0 <= n <= |all|
        invariant Sorted(sorted) && multiset(sorted) == multiset(all[..n])
      {
        assert all[..n + 1] == all[..n] + [all[n]];
        sorted := Insert(sorted, all[n]);
        n := n + 1;
      }
      assert all[..n] == all;
      rules := sorted;
    }

    /** `sort.Search` for the first rule not below `path`. */
    method search(path: Path) returns (pos: nat)
      requires Valid()
      ensures pos <= |rules|
      ensures forall k | 0 <= k < pos :: Cmp(path, rules[k].path) > 0
      ensures forall k | pos <= k < |rules| :: Cmp(path, rules[k].path) <= 0
    {
      var i, j := 0, |rules|;
      while i < j
        invariant 0 <= i <= j <= |rules|
        invariant forall k | 0 <= k < i :: Cmp(path, rules[k].path) > 0
        invariant forall k | j <= k < |rules| :: Cmp(path, rules[k].path) <= 0
      {
        var h := (i + j) / 2;
        var c := cmp(path, rules[h].path);
        if c > 0 {
          forall k | 0 <= k < h + 1
            ensures Cmp(path, rules[k].path) > 0
          {
            CmpOrder(path, rules[k].path, rules[h].path);
          }
          i := h + 1;
        } else {
          forall k | h <= k < |rules|
            ensures Cmp(path, rules[k].path) <= 0
          {
            CmpOrder(path, rules[h].path, rules[k].path);
          }
          j := h;
        }
      }
      pos := i;
    }

    /** Binary search finds what the linear scan finds. */
    method find(path: Path) returns (r: Option<Rule>)
      requires Valid()
      ensures r == Lookup(rules, path)
    {
      var pos := search(path);
      if pos == |rules| {
        return None;
      }
      var c := cmp(path, rules[pos].path);
      if c != 0 {
        forall k | pos <= k < |rules|
          ensures rules[k].path != path
        {
          CmpOrder(path, rules[pos].path, rules[k].path);
          CmpOrder(rules[k].path, rules[pos].path, path);
          CmpOrder(path, rules[k].path, rules[pos].path);
        }
        return None;
      }
      FirstMatch(rules, path, pos);
      return Some(rules[pos]);
    }
  }

  lemma {:induction false} FirstMatch(rules: seq<Rule>, path: Path, pos: nat)
    requires pos < |rules| && rules[pos].path == path
    requires forall k | 0 <= k < pos :: rules[k].path != path
    ensures Lookup(rules, path) == Some(rules[pos])
  {
    if pos > 0 {
      FirstMatch(rules[1..], path, pos - 1);
    }
  }

  method Insert(rules: seq<Rule>, rule: Rule) returns (r: seq<Rule>)
    requires Sorted(rules)
    ensures Sorted(r) && multiset(r) == multiset(rules) + multiset{rule}
  {
    var k := |rules|;
    while k > 0 && Cmp(rules[k - 1].path, rule.path) > 0
      invariant 0 <= k <= |rules|
      invariant forall j | k <= j < |rules| :: Cmp(rules[j].path, rule.path) > 0
    {
      k := k - 1;
    }
    SortedInsert(rules, rule, k);
    r := rules[..k] + [rule] + rules[k..];
    assert rules == rules[..k] + rules[k..];
  }

  lemma SortedInsert(rules: seq<Rule>, rule: Rule, k: nat)
    requires Sorted(rules) && k <= |rules|
    requires k > 0 ==> Cmp(rules[k - 1].path, rule.path) <= 0
    requires forall j | k <= j < |rules| :: Cmp(rules[j].path, rule.path) > 0
    ensures Sorted(rules[..k] + [rule] + rules[k..])
  {
    var r := rules[..k] + [rule] + rules[k..];
    forall i, j | 0 <= i < j < |r|
      ensures Cmp(r[i].path, r[j].path) <= 0
    {
      if j == k {
        CmpOrder(r[i].path, rules[k - 1].path, rule.path);
        CmpOrder(r[i].path, r[i].path, r[i].path);
      } else if i == k {
        CmpOrder(r[j].path, rule.path, rule.path);
      } else {
        assert r[i] == rules[if i < k then i else i - 1] && r[j] == rules[if j < k then j else j - 1];
      }
    }
  }
}
