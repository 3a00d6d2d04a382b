/**
The variable stores of the HTTP parser: ordered trees of variables, each a name and its list of
values, used as finite maps.
*/
module HttpVars {
  import opened CTypes
  import opened AvlShape
  import opened AvlUpdate
  import opened AvlHeap
  import opened AvlTrees
  import opened AvlQueries
  import opened QueryString

  // ---------------------------------------------------------------- names in order

  function StrCmp(a: CString, b: CString): int {
    if a == [] then (if b == [] then 0 else -b[0])
    else if b == [] then a[0]
    else if a[0] != b[0] then a[0] - b[0]
    else
      assert NulFree(a[1..]) && NulFree(b[1..]) by { Tails(a); Tails(b); }
      StrCmp(a[1..], b[1..])
  }

  lemma Tails(a: Bytes)
    requires a != [] && NulFree(a)
    ensures NulFree(a[1..])
  {
    assert forall i :: 0 <= i < |a[1..]| ==> a[1..][i] == a[i + 1];
  }

  lemma {:induction false} StrCmpSign(a: CString, b: CString)
    ensures StrCmp(a, b) < 0 <==> StrCmp(b, a) > 0
    ensures StrCmp(a, b) == 0 <==> a == b
  {
    if a != [] && b != [] {
      Tails(a);
      Tails(b);
      StrCmpSign(a[1..], b[1..]);
      assert a == [a[0]] + a[1..] && b == [b[0]] + b[1..];
    }
  }

  lemma {:induction false} StrCmpTransitive(a: CString, b: CString, c: CString)
    requires StrCmp(a, b) <= 0 && StrCmp(b, c) <= 0
    ensures StrCmp(a, c) <= 0
  {
    if a != [] && b != [] && c != [] {
      Tails(a);
      Tails(b);
      Tails(c);
      if a[0] == b[0] == c[0] {
        StrCmpTransitive(a[1..], b[1..], c[1..]);
      }
    }
  }

  /** A pointer to a variable: its name does not change while it exists, its values do. */
  datatype VarPtr = VarPtr(name: CString, address: nat)

  /** `_compare_vars` */
  function CompareVars(a: VarPtr, b: VarPtr): int { StrCmp(a.name, b.name) }

  /** Comparing by name is the order the tree asks for. */
  lemma {:induction false} CompareVarsOrders()
    ensures TotalPreorder(CompareVars)
  {
    forall a: VarPtr, b: VarPtr ensures CompareVars(a, b) < 0 <==> CompareVars(b, a) > 0 {
      StrCmpSign(a.name, b.name);
    }
    forall a: VarPtr, b: VarPtr, c: VarPtr | CompareVars(a, b) <= 0 && CompareVars(b, c) <= 0
      ensures CompareVars(a, c) <= 0
    {
      StrCmpTransitive(a.name, b.name, c.name);
    }
  }

  // ---------------------------------------------------------------- entries as a finite map

  type Values = seq<CString>

  ghost predicate Bound(p: VarPtr, values: map<nat, Values>, vars: map<CString, Values>) {
    p.address in values && p.name in vars && vars[p.name] == values[p.address]
  }

  ghost predicate Named(s: seq<VarPtr>, name: CString) { exists i :: 0 <= i < |s| && s[i].name == name }

  /** Entries with different names, at different addresses, that hold exactly the map `vars`. */
  ghost predicate Represents(s: seq<VarPtr>, values: map<nat, Values>, vars: map<CString, Values>) {
    && (forall i :: 0 <= i < |s| ==> Bound(s[i], values, vars))
    && (forall i, j :: 0 <= i < j < |s| ==> s[i].name != s[j].name && s[i].address != s[j].address)
    && (forall n {:trigger Named(s, n)} :: n in vars ==> Named(s, n))
    && (forall n :: n in vars ==> vars[n] != [])
  }

  lemma InsertedEntries(s: seq<VarPtr>, i: nat, p: VarPtr, j: nat)
    requires i <= |s| && j <= |s|
    ensures InsertAt(s, i, p)[j] == if j < i then s[j] else if j == i then p else s[j - 1]
  {}

  lemma RemovedEntries(s: seq<VarPtr>, i: nat, j: nat)
    requires i < |s| && j < |s| - 1
    ensures RemoveAt(s, i)[j] == if j < i then s[j] else s[j + 1]
  {}

  lemma {:induction false} InsertRepresents(s: seq<VarPtr>, values: map<nat, Values>, vars: map<CString, Values>,
                                            i: nat, p: VarPtr, v: Values)
    requires Represents(s, values, vars) && i <= |s| && p.name !in vars && p.address !in values && v != []
    ensures Represents(InsertAt(s, i, p), values[p.address := v], vars[p.name := v])
  {
    var u, values', vars' := InsertAt(s, i, p), values[p.address := v], vars[p.name := v];
    forall j | 0 <= j < |u| ensures Bound(u[j], values', vars') {
      InsertedEntries(s, i, p, j);
    }
    forall j, k | 0 <= j < k < |u| ensures u[j].name != u[k].name && u[j].address != u[k].address {
      InsertedEntries(s, i, p, j);
      InsertedEntries(s, i, p, k);
    }
    forall n | n in vars' ensures Named(u, n) {
      if n == p.name {
        assert u[i].name == n;
      } else {
        assert Named(s, n);
        var k :| 0 <= k < |s| && s[k].name == n;
        assert u[if k < i then k else k + 1].name == n;
      }
    }
  }

  lemma {:induction false} RemoveRepresents(s: seq<VarPtr>, values: map<nat, Values>, vars: map<CString, Values>,
                                            i: nat)
    requires Represents(s, values, vars) && i < |s|
    ensures Represents(RemoveAt(s, i), values - {s[i].address}, vars - {s[i].name})
  {
    var u, values', vars' := RemoveAt(s, i), values - {s[i].address}, vars - {s[i].name};
    forall j | 0 <= j < |u| ensures Bound(u[j], values', vars') {
      RemovedEntries(s, i, j);
    }
    forall j, k | 0 <= j < k < |u| ensures u[j].name != u[k].name && u[j].address != u[k].address {
      RemovedEntries(s, i, j);
      RemovedEntries(s, i, k);
    }
    forall n | n in vars' ensures Named(u, n) {
      assert Named(s, n);
      var k :| 0 <= k < |s| && s[k].name == n;
      assert u[if k < i then k else k - 1].name == n;
    }
  }

  lemma {:induction false} UpdateRepresents(s: seq<VarPtr>, values: map<nat, Values>, vars: map<CString, Values>,
                                            p: VarPtr, v: Values)
    requires Represents(s, values, vars) && p in s && v != []
    ensures Represents(s, values[p.address := v], vars[p.name := v])
  {
    var values', vars' := values[p.address := v], vars[p.name := v];
    var i :| 0 <= i < |s| && s[i] == p;
    forall j | 0 <= j < |s| ensures Bound(s[j], values', vars') {
      if j < i {
        assert s[j].name != s[i].name && s[j].address != s[i].address;
      } else if j > i {
        assert s[i].name != s[j].name && s[i].address != s[j].address;
      }
    }
  }

  /** Looking an entry up by name finds it exactly when the map has that name. */
  lemma {:induction false} PresentIffIn(s: seq<VarPtr>, values: map<nat, Values>, vars: map<CString, Values>,
                                        key: VarPtr)
    requires Represents(s, values, vars)
    ensures Present(CompareVars, s, key) <==> key.name in vars
  {
    if key.name in vars {
      assert Named(s, key.name);
      var i :| 0 <= i < |s| && s[i].name == key.name;
      StrCmpSign(key.name, s[i].name);
      assert CompareVars(key, s[i]) == 0;
    }
    if Present(CompareVars, s, key) {
      var i :| 0 <= i < |s| && CompareVars(key, s[i]) == 0;
      StrCmpSign(key.name, s[i].name);
      assert Bound(s[i], values, vars);
    }
  }

  /** Removing an entry that compares equal to the key removes the one binding with that name. */
  lemma {:induction false} RemovesBinding(s: seq<VarPtr>, values: map<nat, Values>, vars: map<CString, Values>,
                                          key: VarPtr, u: seq<VarPtr>, p: VarPtr)
    requires Represents(s, values, vars) && RemovesOne(s, u, p) && CompareVars(key, p) == 0
    ensures Represents(u, values - {p.address}, vars - {key.name})
  {
    var i :| 0 <= i < |s| && s[i] == p && u == RemoveAt(s, i);
    StrCmpSign(key.name, p.name);
    RemoveRepresents(s, values, vars, i);
  }

  // ---------------------------------------------------------------- the store

  /** One more value for a name. */
  ghost function Append(vars: map<CString, Values>, p: Pair): map<CString, Values> {
    vars[p.0 := (if p.0 in vars then vars[p.0] else []) + [p.1]]
  }

  ghost function AppendAll(vars: map<CString, Values>, ps: seq<Pair>): map<CString, Values>
    decreases |ps|
  {
    if ps == [] then vars else AppendAll(Append(vars, ps[0]), ps[1..])
  }

  /** The values a list of pairs gives to a name, in order. */
  function ValuesOf(ps: seq<Pair>, name: CString): Values {
    if ps == [] then [] else (if ps[0].0 == name then [ps[0].1] else []) + ValuesOf(ps[1..], name)
  }

  ghost function Lookup(vars: map<CString, Values>, name: CString): Values {
    if name in vars then vars[name] else []
  }

  lemma AppendOne(vars: map<CString, Values>, p: Pair, name: CString, more: Values)
    ensures Lookup(Append(vars, p), name) + more ==
      Lookup(vars, name) + ((if p.0 == name then [p.1] else []) + more)
  {}

  /** Appending a list of pairs gives every name its old values, then those in the list, in list order. */
  lemma {:induction false} AppendAllValues(vars: map<CString, Values>, ps: seq<Pair>, name: CString)
    ensures Lookup(AppendAll(vars, ps), name) == Lookup(vars, name) + ValuesOf(ps, name)
    ensures name in AppendAll(vars, ps) <==> name in vars || ValuesOf(ps, name) != []
    decreases |ps|
  {
    if ps == [] {
      assert Lookup(vars, name) + [] == Lookup(vars, name);
    } else {
      AppendAllValues(Append(vars, ps[0]), ps[1..], name);
      AppendOne(vars, ps[0], name, ValuesOf(ps[1..], name));
    }
  }

  /** An entry put into the tree is one more binding. */
  method Bind(tree: AvlTree<VarPtr>, p: VarPtr, ghost values: map<nat, Values>, ghost vars: map<CString, Values>,
              ghost v: Values)
    requires tree.Valid() && tree.cmp == CompareVars && Represents(tree.Contents(), values, vars)
    requires p.name !in vars && p.address !in values && v != []
    modifies tree, tree.head, Cells(tree.model)
    ensures tree.Valid() && fresh(Cells(tree.model) - old(Cells(tree.model)))
    ensures Represents(tree.Contents(), values[p.address := v], vars[p.name := v])
  {
    ghost var s := tree.Contents();
    InsertRepresents(s, values, vars, CountLess(tree.cmp, s, p), p, v);
    var _ := tree.Insert(p);
  }

  lemma NotBound(s: seq<VarPtr>, values: map<nat, Values>, vars: map<CString, Values>, name: CString)
    requires Represents(s, values, vars) && name !in vars
    ensures Represents(s, values - {}, vars - {name})
  {
    assert vars - {name} == vars && values - {} == values;
  }

  /** An entry deleted from the tree, if it is there, is one binding less; `freed` is what was freed. */
  method Unbind(tree: AvlTree<VarPtr>, key: VarPtr, ghost values: map<nat, Values>, ghost vars: map<CString, Values>)
    returns (freed: set<nat>)
    requires tree.Valid() && tree.cmp == CompareVars && Represents(tree.Contents(), values, vars)
    modifies tree, tree.head, Cells(tree.model)
    ensures tree.Valid() && Cells(tree.model) <= old(Cells(tree.model))
    ensures Represents(tree.Contents(), values - freed, vars - {key.name})
  {
    ghost var s := tree.Contents();
    PresentIffIn(s, values, vars, key);
    var rc, entry, _ := tree.Delete(key);
    if rc == 0 {
      freed := {entry.value.address};
      RemovesBinding(s, values, vars, key, tree.Contents(), entry.value);
    } else {
      freed := {};
      NotBound(s, values, vars, key.name);
    }
  }

  class Store {
    const tree: AvlTree<VarPtr>
    /** The value arrays, by the address of the variable that owns them. */
    var values: map<nat, Values>
    var unused: nat
    /** The finite map this store is. */
    ghost var vars: map<CString, Values>

    ghost predicate Valid()
      reads this, tree, tree.head, Cells(tree.model)
    {
      && tree.Valid() && tree.cmp == CompareVars
      && Represents(tree.Contents(), values, vars)
      && forall a :: a in values ==> a < unused
    }

    constructor ()
      ensures Valid() && vars == map[] && fresh(tree) && fresh(tree.head) && tree.model == Leaf
    {
      CompareVarsOrders();
      tree := new AvlTree<VarPtr>(CompareVars);
      values, unused, vars := map[], 0, map[];
    }

    /** `_httpp_get_param_var` */
    method GetParamVar(name: CString) returns (found: Option<VarPtr>)
      requires Valid()
      ensures found.None? <==> name !in vars
      ensures found.Some? ==> found.value in tree.Contents() && found.value.name == name
    {
      var key := VarPtr(name, 0);
      PresentIffIn(tree.Contents(), values, vars, key);
      var rc, value := GetByKey(tree, key);
      if rc == 0 {
        StrCmpSign(name, value.value.name);
        return Some(value.value);
      }
      return None;
    }

    /** `httpp_getvar` and `_httpp_get_param`: the first value. */
    method GetVar(name: Option<CString>) returns (value: Option<CString>)
      requires Valid()
      ensures value == if name.None? || name.value !in vars then None else Some(vars[name.value][0])
    {
      if name.None? {
        return None;
      }
      var found := GetParamVar(name.value);
      if found.None? {
        return None;
      }
      assert Bound(found.value, values, vars);
      var v := values[found.value.address];
      if |v| == 0 {
        return None;
      }
      return Some(v[0]);
    }

    /** A new variable with one value goes into the tree. */
    method Add(name: CString, v: CString)
      requires Valid() && name !in vars
      modifies this, tree, tree.head, Cells(tree.model)
      ensures Valid() && fresh(Cells(tree.model) - old(Cells(tree.model))) && vars == old(vars)[name := [v]]
    {
      var p := VarPtr(name, unused);
      Bind(tree, p, values, vars, [v]);
      values, vars := values[p.address := [v]], vars[name := [v]];
      unused := unused + 1;
    }

    /** `httpp_deletevar`: the name is unbound, the rest stays. */
    method DeleteVar(name: Option<CString>)
      requires Valid()
      modifies this, tree, tree.head, Cells(tree.model)
      ensures Valid() && Cells(tree.model) <= old(Cells(tree.model))
      ensures vars == if name.None? then old(vars) else old(vars) - {name.value}
    {
      if name.Some? {
        var freed := Unbind(tree, VarPtr(name.value, 0), values, vars);
        values, vars := values - freed, vars - {name.value};
      }
    }

    /** The variable of that name gives way to a new one with one value. */
    method Replace(name: CString, v: CString)
      requires Valid()
      modifies this, tree, tree.head, Cells(tree.model)
      ensures Valid() && fresh(Cells(tree.model) - old(Cells(tree.model))) && vars == old(vars)[name := [v]]
    {
      DeleteVar(Some(name));
      label Deleted:
      Add(name, v);
      forall x | x in Cells(tree.model) && x !in old(Cells(tree.model)) ensures fresh(x) {
        assert x in Cells(tree.model) - old@Deleted(Cells(tree.model)) && !old@Deleted(allocated(x));
      }
      assert vars == old(vars)[name := [v]];
    }

    /** `httpp_setvar`: afterwards the name has this one value. */
    method SetVar(name: Option<CString>, value: Option<CString>)
      requires Valid()
      modifies this, tree, tree.head, Cells(tree.model)
      ensures Valid() && fresh(Cells(tree.model) - old(Cells(tree.model)))
      ensures vars == if name.None? || value.None? then old(vars) else old(vars)[name.value := [value.value]]
    {
      if name.None? || value.None? {
        return;
      }
      CellsAllocated(tree.model);
      var first := GetVar(name);
      label Looked:
      if first == None {
        Add(name.value, value.value);
      } else {
        Replace(name.value, value.value);
      }
      forall x | x in Cells(tree.model) && x !in old(Cells(tree.model)) ensures fresh(x) {
        assert x in Cells(tree.model) - old@Looked(Cells(tree.model)) && !old@Looked(allocated(x));
      }
    }

    /** One more value at the end of the array of a variable that is there already. */
    method AddValue(found: VarPtr, value: CString)
      requires Valid() && found in tree.Contents()
      modifies this`values, this`vars
      ensures Valid() && found.name in old(vars) && vars == old(vars)[found.name := old(vars)[found.name] + [value]]
    {
      assert Bound(found, values, vars);
      var v := values[found.address] + [value];
      UpdateRepresents(tree.Contents(), values, vars, found, v);
      values, vars := values[found.address := v], vars[found.name := v];
    }

    /** `_httpp_set_param_nocopy`: adds a value to the name, or makes it the only one. */
    method SetParamNoCopy(name: Option<CString>, value: Option<CString>, replace: bool)
      requires Valid()
      modifies this, tree, tree.head, Cells(tree.model)
      ensures Valid() && fresh(Cells(tree.model) - old(Cells(tree.model)))
      ensures name.None? || value.None? ==> vars == old(vars)
      ensures name.Some? && value.Some? ==>
        vars == if replace then old(vars)[name.value := [value.value]] else Append(old(vars), (name.value, value.value))
    {
      if name.None? || value.None? {
        return;
      }
      CellsAllocated(tree.model);
      var found := GetParamVar(name.value);
      label Looked:
      if found == None {
        Add(name.value, value.value);
        assert [] + [value.value] == [value.value];
      } else if replace {
        Replace(name.value, value.value);
      } else {
        AddValue(found.value, value.value);
      }
      forall x | x in Cells(tree.model) && x !in old(Cells(tree.model)) ensures fresh(x) {
        assert x in Cells(tree.model) - old@Looked(Cells(tree.model)) && !old@Looked(allocated(x));
      }
    }

    /** `_httpp_set_param`: the decoded value becomes the only one; a value that cannot be decoded is dropped. */
    method SetParam(name: Option<CString>, value: Option<CString>)
      requires Valid()
      modifies this, tree, tree.head, Cells(tree.model)
      ensures Valid() && fresh(Cells(tree.model) - old(Cells(tree.model)))
      ensures vars ==
        if name.None? || value.None? || Decoding(value.value).None? then old(vars)
        else old(vars)[name.value := [Decoding(value.value).value]]
    {
      if name.None? || value.None? {
        return;
      }
      CellsAllocated(tree.model);
      var decoded := DecodedString(value.value);
      label Read:
      SetParamNoCopy(name, decoded, true);
      forall x | x in Cells(tree.model) && x !in old(Cells(tree.model)) ensures fresh(x) {
        assert x in Cells(tree.model) - old@Read(Cells(tree.model)) && !old@Read(allocated(x));
      }
    }

    /** Adds a decoded value, or nothing if decoding failed; `all` is what that comes to. */
    method AddDecoded(name: CString, value: Bytes, ghost all: map<CString, Values>)
      requires Valid()
      requires all == if Decoding(value).None? then vars else Append(vars, (name, Decoding(value).value))
      modifies this, tree, tree.head, Cells(tree.model)
      ensures Valid() && fresh(Cells(tree.model) - old(Cells(tree.model))) && vars == all
    {
      CellsAllocated(tree.model);
      var decoded := DecodedString(value);
      label Read:
      SetParamNoCopy(Some(name), decoded, false);
      forall x | x in Cells(tree.model) && x !in old(Cells(tree.model)) ensures fresh(x) {
        assert x in Cells(tree.model) - old@Read(Cells(tree.model)) && !old@Read(allocated(x));
      }
    }

    /** `parse_query_element` on `query[start..end]`, with the last equals sign in it at `mid`. */
    method ParseQueryElement(query: Bytes, start: nat, mid: int, end: nat)
      requires Valid() && start <= end <= |query|
      requires MidAt(query, start, mid, end)
      modifies this, tree, tree.head, Cells(tree.model)
      ensures Valid() && fresh(Cells(tree.model) - old(Cells(tree.model)))
      ensures vars == AppendAll(old(vars), Element(query[start..end]))
    {
      if start >= end || mid == -1 || mid == start || mid == end - 1 {
        return;
      }
      var name := AsCString(query[start..mid]);
      ElementParts(query, start, mid, end, name, vars);
      AddDecoded(name, query[mid + 1..end], AppendAll(vars, Element(query[start..end])));
    }

    /** `parse_query`: every element of the query adds a value to its name, in order. */
    method ParseQuery(query: Option<Bytes>)
      requires Valid()
      modifies this, tree, tree.head, Cells(tree.model)
      ensures Valid() && fresh(Cells(tree.model) - old(Cells(tree.model)))
      ensures vars == if query.None? then old(vars) else AppendAll(old(vars), Pairs(query.value))
    {
      if query.None? || query.value == [] || query.value[0] == 0 {
        return;
      }
      ParseElements(query.value);
    }

    /** One byte of a query: an ampersand ends an element, an equals sign may divide one. */
    method ParseByte(query: Bytes, start: nat, mid: int, i: nat, ghost all: map<CString, Values>)
      returns (start': nat, mid': int)
      requires Valid() && i < |query| && Parsing(query, start, mid, i, vars, all)
      modifies this, tree, tree.head, Cells(tree.model)
      ensures Valid() && fresh(Cells(tree.model) - old(Cells(tree.model)))
      ensures Parsing(query, start', mid', i + 1, vars, all)
    {
      if query[i] == AMPERSAND {
        AtAmpersand(query, start, i, vars, all);
        ParseQueryElement(query, start, mid, i);
        return i + 1, -1;
      }
      WithinElement(query, start, mid, i, vars, all);
      return start, if query[i] == EQUALS then i else mid;
    }

    /** All bytes of a query; the element that ends with it is left to do. */
    method ParseBytes(query: Bytes, ghost all: map<CString, Values>) returns (start: nat, mid: int)
      requires Valid() && Parsing(query, 0, -1, 0, vars, all)
      modifies this, tree, tree.head, Cells(tree.model)
      ensures Valid() && fresh(Cells(tree.model) - old(Cells(tree.model)))
      ensures Parsing(query, start, mid, |query|, vars, all)
    {
      start, mid := 0, -1;
      for i := 0 to |query|
        invariant Valid() && Parsing(query, start, mid, i, vars, all)
        invariant forall x :: x in Cells(tree.model) && x !in old(Cells(tree.model)) ==> fresh(x)
      {
        label Next:
        CellsAllocated(tree.model);
        start, mid := ParseByte(query, start, mid, i, all);
        forall x | x in Cells(tree.model) && x !in old(Cells(tree.model)) ensures fresh(x) {
          if x !in old@Next(Cells(tree.model)) {
            assert x in Cells(tree.model) - old@Next(Cells(tree.model)) && !old@Next(allocated(x));
          }
        }
      }
    }

    method ParseElements(query: Bytes)
      requires Valid()
      modifies this, tree, tree.head, Cells(tree.model)
      ensures Valid() && fresh(Cells(tree.model) - old(Cells(tree.model)))
      ensures vars == AppendAll(old(vars), Elements(query))
    {
      ghost var all := AppendAll(vars, Elements(query));
      AtStart(query, vars, all);
      var start, mid := ParseBytes(query, all);
      AtEnd(query, start, mid, vars, all);
      label Last:
      CellsAllocated(tree.model);
      ParseQueryElement(query, start, mid, |query|);
      forall x | x in Cells(tree.model) && x !in old(Cells(tree.model)) ensures fresh(x) {
        if x !in old@Last(Cells(tree.model)) {
          assert x in Cells(tree.model) - old@Last(Cells(tree.model)) && !old@Last(allocated(x));
        }
      }
    }
  }

  lemma {:induction false} AppendAllParts(vars: map<CString, Values>, a: seq<Pair>, b: seq<Pair>)
    ensures AppendAll(vars, a + b) == AppendAll(AppendAll(vars, a), b)
    decreases |a|
  {
    if a == [] {
      assert a + b == b;
    } else {
      assert (a + b)[1..] == a[1..] + b;
      AppendAllParts(Append(vars, a[0]), a[1..], b);
    }
  }

  /** Up to `i` the query is parsed, but for an element that began at `start`; `all` is what it will come to. */
  ghost predicate Parsing(query: Bytes, start: nat, mid: int, i: nat, vars: map<CString, Values>, all: map<CString,
                          Values>) {
    && start <= i <= |query| && Free(query[start..i], AMPERSAND) && MidAt(query, start, mid, i)
    && AppendAll(vars, Elements(query[start..])) == all
  }

  lemma AtStart(query: Bytes, vars: map<CString, Values>, all: map<CString, Values>)
    requires all == AppendAll(vars, Elements(query))
    ensures Parsing(query, 0, -1, 0, vars, all)
  {
    assert query[0..] == query && query[0..0] == [];
  }

  lemma WithinElement(query: Bytes, start: nat, mid: int, i: nat, vars: map<CString, Values>, all: map<CString, Values>)
    requires i < |query| && Parsing(query, start, mid, i, vars, all) && query[i] != AMPERSAND
    ensures Parsing(query, start, if query[i] == EQUALS then i else mid, i + 1, vars, all)
  {
    var e := query[start..i + 1];
    assert e[..|e| - 1] == query[start..i] && e[|e| - 1] == query[i];
    assert e == query[start..i] + [query[i]];
  }

  /** At an ampersand: one element, then the rest. */
  lemma {:induction false} AtAmpersand(query: Bytes, start: nat, i: nat, vars: map<CString, Values>, all: map<CString,
                                       Values>)
    requires start <= i < |query| && Free(query[start..i], AMPERSAND) && query[i] == AMPERSAND
    requires AppendAll(vars, Elements(query[start..])) == all
    ensures Parsing(query, i + 1, -1, i + 1, AppendAll(vars, Element(query[start..i])), all)
  {
    ElementStarts(query, start, i);
    AppendFirst(query[start..], query[start..i], query[i + 1..], vars);
  }

  lemma ElementStarts(query: Bytes, start: nat, i: nat)
    requires start <= i < |query|
    ensures query[start..] == query[start..i] + [query[i]] + query[i + 1..]
    ensures Free(query[i + 1..i + 1], AMPERSAND) && MidAt(query, i + 1, -1, i + 1)
  {}

  lemma AppendFirst(q: Bytes, e: Bytes, rest: Bytes, vars: map<CString, Values>)
    requires q == e + [AMPERSAND] + rest && Free(e, AMPERSAND)
    ensures AppendAll(vars, Elements(q)) == AppendAll(AppendAll(vars, Element(e)), Elements(rest))
  {
    ElementsFirst(q, e, rest);
    AppendAllParts(vars, Element(e), Elements(rest));
  }

  lemma {:induction false} AtEnd(query: Bytes, start: nat, mid: int, vars: map<CString, Values>, all: map<CString,
                                 Values>)
    requires Parsing(query, start, mid, |query|, vars, all)
    ensures AppendAll(vars, Element(query[start..|query|])) == all
  {
    var e := query[start..|query|];
    assert query[start..] == e;
    FirstOfNone(e, AMPERSAND);
  }

  /** `mid` is where the last equals sign in an element stands, -1 if there is none. */
  ghost predicate MidAt(query: Bytes, start: nat, mid: int, end: nat)
    requires start <= end <= |query|
  {
    var k := LastOf(query[start..end], EQUALS);
    if k == -1 then mid == -1 else mid == start + k
  }

  /** What one element adds, once its parts are known. */
  lemma ElementParts(query: Bytes, start: nat, mid: nat, end: nat, name: CString, vars: map<CString, Values>)
    requires start < mid < end - 1 < |query| && MidAt(query, start, mid, end) && name == AsCString(query[start..mid])
    ensures var value := Decoding(query[mid + 1..end]);
      AppendAll(vars, Element(query[start..end])) == if value.None? then vars else Append(vars, (name, value.value))
  {
    var e, value := query[start..end], Decoding(query[mid + 1..end]);
    assert e[..mid - start] == query[start..mid] && e[mid - start + 1..] == query[mid + 1..end];
    if value.Some? {
      var p: Pair := (name, value.value);
      assert Element(e) == [p] && [p][1..] == [];
    }
  }

  /** The C string an encoded text stands for, if it is valid. */
  function Decoding(src: Bytes): Option<CString> {
    if Unescape(src).None? then None else Some(AsCString(Unescape(src).value))
  }

  lemma {:induction false} CutAtNul(s: Bytes, n: nat)
    requires n < |s| && s[n] == 0
    ensures AsCString(s) == AsCString(s[..n])
  {
    if n > 0 && s[0] != 0 {
      CutAtNul(s[1..], n - 1);
      assert s[..n][1..] == s[1..][..n - 1];
    }
  }

  /** The C string that `url_unescape` returns, or NULL. */
  method DecodedString(src: Bytes) returns (value: Option<CString>)
    ensures value == Decoding(src)
  {
    ghost var n;
    var decoded;
    decoded, n := UrlUnescape(src);
    if decoded == null {
      return None;
    }
    CutAtNul(decoded[..], n);
    assert decoded[..][..n] == decoded[..n];
    return Some(AsCString(decoded[..]));
  }

  /** Parsing an encoded list of pairs gives every name its values in list order, behind those it had. */
  lemma {:induction false} QueryValues(vars: map<CString, Values>, ps: seq<Pair>, name: CString)
    requires PlainNames(ps) && forall i :: 0 <= i < |ps| ==> Told(ps[i])
    ensures Lookup(AppendAll(vars, Pairs(Join(ps))), name) == Lookup(vars, name) + ValuesOf(ps, name)
  {
    QueryRoundTrip(ps);
    AppendAllValues(vars, ps, name);
  }

  // ---------------------------------------------------------------- listing names

  /** The kinds of variables; the first two share a store, told apart by a leading double underscore. */
  datatype Namespace = Var | Header | QueryVar | PostVar

  const UNDERSCORE: Byte := 95

  predicate Wanted(ns: Namespace, name: CString) {
    var internal := |name| >= 2 && name[0] == UNDERSCORE && name[1] == UNDERSCORE;
    match ns
    case Var => internal
    case Header => !internal
    case _ => true
  }

  function Selected(ns: Namespace, s: seq<VarPtr>): seq<CString> {
    if s == [] then []
    else
      var n := s[|s| - 1].name;
      Selected(ns, s[..|s| - 1]) + (if Wanted(ns, n) then [n] else [])
  }

  lemma {:induction false} SelectedNames(ns: Namespace, s: seq<VarPtr>, name: CString)
    ensures name in Selected(ns, s) <==> Named(s, name) && Wanted(ns, name)
  {
    if s != [] {
      var last := |s| - 1;
      SelectedNames(ns, s[..last], name);
      if Named(s, name) && s[last].name != name {
        var i :| 0 <= i < |s| && s[i].name == name;
        assert s[..last][i].name == name;
      }
      if Named(s[..last], name) {
        var i :| 0 <= i < last && s[..last][i].name == name;
        assert s[i].name == name;
      }
    }
  }

  /** Of the names bound, those with two underscores in front are variables, the others headers. */
  lemma {:induction false} SelectedMeans(ns: Namespace, s: seq<VarPtr>, values: map<nat, Values>,
                                         vars: map<CString, Values>, n: CString)
    requires Represents(s, values, vars)
    ensures n in Selected(ns, s) <==>
      n in vars && (ns.Var? ==> [95, 95] <= n) && (ns.Header? ==> !([95, 95] <= n))
  {
    SelectedNames(ns, s, n);
    if Named(s, n) {
      var i :| 0 <= i < |s| && s[i].name == n;
      assert Bound(s[i], values, vars);
    }
  }

  /** Every name of a store is listed as a variable or as a header, and not as both. */
  lemma {:induction false} VarOrHeader(s: seq<VarPtr>, name: CString)
    ensures Named(s, name) <==> name in Selected(Var, s) || name in Selected(Header, s)
    ensures !(name in Selected(Var, s) && name in Selected(Header, s))
    ensures |Selected(Var, s)| + |Selected(Header, s)| == |s|
  {
    SelectedNames(Var, s, name);
    SelectedNames(Header, s, name);
    if s != [] { VarOrHeader(s[..|s| - 1], name); }
  }

  /** In the order of their bytes: where they first differ `a` has the smaller one, or it ends there. */
  ghost predicate Precedes(a: CString, b: CString) {
    exists k: nat :: DifferAt(a, b, k)
  }

  ghost predicate DifferAt(a: CString, b: CString, k: nat) {
    k <= |a| && k < |b| && a[..k] == b[..k] && (k == |a| || a[k] < b[k])
  }

  lemma {:induction false} StrCmpPrecedes(a: CString, b: CString)
    ensures StrCmp(a, b) < 0 <==> Precedes(a, b)
  {
    if a != [] && b != [] && a[0] == b[0] {
      Tails(a);
      Tails(b);
      StrCmpPrecedes(a[1..], b[1..]);
      if Precedes(a[1..], b[1..]) {
        var k: nat :| DifferAt(a[1..], b[1..], k);
        assert a[..k + 1] == [a[0]] + a[1..][..k] && b[..k + 1] == [b[0]] + b[1..][..k];
        assert DifferAt(a, b, k + 1);
      }
      if Precedes(a, b) {
        var k: nat :| DifferAt(a, b, k);
        assert k > 0;
        assert a[1..][..k - 1] == a[..k][1..] && b[1..][..k - 1] == b[..k][1..];
        assert DifferAt(a[1..], b[1..], k - 1);
      }
    } else if b != [] {
      if a == [] || a[0] < b[0] {
        assert DifferAt(a, b, 0);
      } else if Precedes(a, b) {
        var k: nat :| DifferAt(a, b, k);
        assert k == 0 || a[..k][0] == b[..k][0];
      }
    }
  }

  ghost predicate Ascending(names: seq<CString>) {
    forall i, j :: 0 <= i < j < |names| ==> Precedes(names[i], names[j])
  }

  /** Every name listed from the entries before the last one is smaller than the last one's. */
  lemma {:induction false} SelectedBelow(ns: Namespace, s: seq<VarPtr>, last: nat, name: CString)
    requires last < |s| && Sorted(CompareVars, s) && name in Selected(ns, s[..last])
    requires forall i :: 0 <= i < last ==> s[i].name != s[last].name
    ensures Precedes(name, s[last].name)
  {
    SelectedNames(ns, s[..last], name);
    var j :| 0 <= j < last && s[..last][j].name == name;
    assert CompareVars(s[j], s[last]) <= 0;
    StrCmpSign(s[j].name, s[last].name);
    StrCmpPrecedes(name, s[last].name);
  }

  lemma AscendingAppend(names: seq<CString>, n: CString)
    requires Ascending(names) && forall m :: m in names ==> Precedes(m, n)
    ensures Ascending(names + [n])
  {
    assert forall i :: 0 <= i < |names| ==> names[i] in names;
  }

  /** Entries in order, no two of the same name, are listed in strictly ascending order. */
  lemma {:induction false} SelectedAscending(ns: Namespace, s: seq<VarPtr>)
    requires Sorted(CompareVars, s) && forall i, j :: 0 <= i < j < |s| ==> s[i].name != s[j].name
    ensures Ascending(Selected(ns, s))
  {
    if s != [] {
      var last := |s| - 1;
      SelectedAscending(ns, s[..last]);
      forall m | m in Selected(ns, s[..last]) ensures Precedes(m, s[last].name) {
        SelectedBelow(ns, s, last, m);
      }
      AscendingAppend(Selected(ns, s[..last]), s[last].name);
    }
  }

  /** A NULL-terminated array of names: the names, then NULL to the end. */
  ghost predicate Lists(a: seq<Option<CString>>, names: seq<CString>) {
    |names| < |a| && forall i :: 0 <= i < |a| ==> a[i] == if i < |names| then Some(names[i]) else None
  }

  /** Stores one more name, in an array eight longer if the terminator would not fit any more. */
  method PutName(a: array<Option<CString>>, pos: nat, name: CString, ghost names: seq<CString>)
    returns (a': array<Option<CString>>)
    requires Lists(a[..], names) && pos == |names|
    modifies a
    ensures Lists(a'[..], names + [name]) && (a' == a || fresh(a'))
  {
    a' := a;
    if pos == a.Length - 1 {
      a' := new Option<CString>[a.Length + 8](i => None);
      forall i | 0 <= i < a.Length {
        a'[i] := a[i];
      }
      assert forall i :: 0 <= i < a.Length ==> a'[i] == a[..][i];
    }
    assert forall i :: 0 <= i < pos ==> a'[i] == Some(names[i]) by {
      assert forall i :: 0 <= i < pos ==> a[..][i] == Some(names[i]);
    }
    a'[pos] := Some(name);
  }

  /** `httpp_get_any_key` on a store: the wanted names, each once and in ascending order. */
  method GetAnyKey(store: Store, ns: Namespace) returns (ret: array<Option<CString>>, ghost names: seq<CString>)
    requires store.Valid()
    ensures fresh(ret) && Lists(ret[..], names) && Ascending(names)
    ensures forall n :: n in names <==>
      n in store.vars && (ns.Var? ==> [95, 95] <= n) && (ns.Header? ==> !([95, 95] <= n))
  {
    ghost var s := store.tree.Contents();
    ret, names := ListNames(store.tree, ns);
    SelectedAscending(ns, s);
    forall n ensures n in names <==>
      n in store.vars && (ns.Var? ==> [95, 95] <= n) && (ns.Header? ==> !([95, 95] <= n))
    {
      SelectedMeans(ns, s, store.values, store.vars, n);
    }
  }

  /** One entry of the listing. */
  method ListEntry(ret: array<Option<CString>>, pos: nat, name: CString, ns: Namespace, ghost s: seq<VarPtr>,
                   ghost i: nat)
    returns (ret': array<Option<CString>>, pos': nat)
    requires i < |s| && name == s[i].name && Lists(ret[..], Selected(ns, s[..i])) && pos == |Selected(ns, s[..i])|
    modifies ret
    ensures ret' == ret || fresh(ret')
    ensures Lists(ret'[..], Selected(ns, s[..i + 1])) && pos' == |Selected(ns, s[..i + 1])|
  {
    assert s[..i + 1][..i] == s[..i] && s[..i + 1][i] == s[i];
    ret', pos' := ret, pos;
    if Wanted(ns, name) {
      ret' := PutName(ret, pos, name, Selected(ns, s[..i]));
      pos' := pos + 1;
    }
  }

  method NameAndNext(tree: AvlTree<VarPtr>, node: AvlNode<VarPtr>, ghost i: nat)
    returns (name: CString, next: AvlNode?<VarPtr>)
    requires tree.Linked() && i < Size(tree.model) && node == Refs(tree.model)[i]
    ensures name == tree.Contents()[i].name
    ensures next == if i + 1 < Size(tree.model) then Refs(tree.model)[i + 1] else null
  {
    RefHolds(tree.model, i);
    name := node.key.value.name;
    next := GetNext(tree, node, i);
  }

  method ListOne(tree: AvlTree<VarPtr>, node: AvlNode<VarPtr>, ret: array<Option<CString>>, pos: nat, ns: Namespace,
                 ghost i: nat)
    returns (ret': array<Option<CString>>, pos': nat, next: AvlNode?<VarPtr>)
    requires tree.Linked() && i < Size(tree.model) && node == Refs(tree.model)[i]
    requires var names := Selected(ns, tree.Contents()[..i]); Lists(ret[..], names) && pos == |names|
    modifies ret
    ensures ret' == ret || fresh(ret')
    ensures var names := Selected(ns, tree.Contents()[..i + 1]); Lists(ret'[..], names) && pos' == |names|
    ensures next == if i + 1 < Size(tree.model) then Refs(tree.model)[i + 1] else null
  {
    var name;
    name, next := NameAndNext(tree, node, i);
    ret', pos' := ListEntry(ret, pos, name, ns, tree.Contents(), i);
  }

  method ListNames(tree: AvlTree<VarPtr>, ns: Namespace)
    returns (ret: array<Option<CString>>, ghost names: seq<CString>)
    requires tree.Linked()
    ensures fresh(ret) && Lists(ret[..], names) && names == Selected(ns, tree.Contents())
  {
    CellsAllocated(tree.model);
    ret := new Option<CString>[8](i => None);
    var pos := 0;
    var node := GetFirst(tree);
    ghost var i: nat, s := 0, tree.Contents();
    while node != null
      invariant fresh(ret) && i <= |s| && node == if i < |s| then Refs(tree.model)[i] else null
      invariant Lists(ret[..], Selected(ns, s[..i])) && pos == |Selected(ns, s[..i])|
      decreases |s| - i
    {
      ret, pos, node := ListOne(tree, node, ret, pos, ns, i);
      i := i + 1;
    }
    assert s[..i] == s;
    names := Selected(ns, s);
  }
}
