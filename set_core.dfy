/*
 * The Set class of the mruby-set gem (mrbgems/mruby-set/src/set.c).
 *
 * A Set object holds a pointer to a khash table of keys, which stays NULL
 * until `initialize` creates the table.  The table is modelled as a finite
 * set of values, `Kh`, with `NoTable` for the NULL pointer; a Set object is
 * the class `RSet` whose `kh` field the in-place operations update.  The
 * operations that build a new Set (union, difference, intersection, xor)
 * take the two tables and return the table of the new Set.
 *
 * Elements are either Sets, named by an object id, or any other value.
 * Flattening has to look inside nested Sets, so it takes `env`, the tables
 * of the Set objects an element may name; an id that `env` does not map is
 * a Set whose table was never created.
 */
module SetCore {

  /** An element: a Set object named by its id, or any other value. */
  datatype Value = Atom(n: int) | SetVal(id: nat)

  /** A Set's table: `NoTable` is the NULL `kh` of a Set never initialised. */
  datatype Kh = NoTable | Kh(keys: set<Value>)

  datatype SetError = RuntimeError | ArgumentError | FrozenError

  /** What a Ruby-level call returns: `self`, `nil`, or an exception. */
  datatype Outcome = Self | Nil | Raise(error: SetError)

  /** The argument of a comparison: a Set's table, or a value that is not a Set. */
  datatype Operand = SetArg(kh: Kh) | NotSet

  datatype Result<T> = Ok(value: T) | Err(error: SetError)

  datatype Option<T> = None | Some(value: T)

  /** The keys of a table; a missing table holds none. */
  function Keys(t: Kh): (r: set<Value>)
    ensures t.Kh? ==> r == t.keys
    ensures t.NoTable? ==> r == {}
  {
    if t.Kh? then t.keys else {}
  }

  /** `kh_size`, with a missing table counted as empty. */
  function Size(t: Kh): (n: nat)
  {
    |Keys(t)|
  }

  // ---------------------------------------------------------------- cardinality facts

  lemma SubsetCard(a: set<Value>, b: set<Value>)
    requires a <= b
    ensures |a| <= |b|
    ensures |a| == |b| ==> a == b
  {
    assert b == a + (b - a);
    if |a| == |b| {
      assert |b - a| == 0;
      assert b - a == {};
    }
  }

  lemma ProperSubsetCard(a: set<Value>, b: set<Value>)
    requires a < b
    ensures |a| < |b|
  {
    var x :| x in b && x !in a;
    assert a <= b - {x};
    SubsetCard(a, b - {x});
  }

  // ---------------------------------------------------------------- table-building loops

  /** `set_copy_elements`: put every key of `source` into `target`. */
  method CopyElements(target: set<Value>, source: set<Value>) returns (r: set<Value>)
    ensures r == target + source
  {
    r := target;
    var rest := source;
    while rest != {}
      invariant rest <= source
      invariant r == target + (source - rest)
      decreases |rest|
    {
      var key :| key in rest;
      r := r + {key};
      rest := rest - {key};
    }
  }

  /** The `kh_get`/`kh_del` loop of `__subtract` and `__difference`:
      delete from `target` every key of `source` it holds. */
  method RemoveElements(target: set<Value>, source: set<Value>) returns (r: set<Value>)
    ensures r == target - source
  {
    r := target;
    var rest := source;
    while rest != {}
      invariant rest <= source
      invariant r == target - (source - rest)
      decreases |rest|
    {
      var key :| key in rest;
      if key in r {
        r := r - {key};
      }
      rest := rest - {key};
    }
  }

  /** The loop of `__intersection`: put each key of `source` that `probe` holds. */
  method KeepCommon(target: set<Value>, source: set<Value>, probe: set<Value>) returns (r: set<Value>)
    ensures r == target + source * probe
  {
    r := target;
    var rest := source;
    while rest != {}
      invariant rest <= source
      invariant r == target + (source - rest) * probe
      decreases |rest|
    {
      var key :| key in rest;
      if key in probe {
        r := r + {key};
      }
      rest := rest - {key};
    }
  }

  /** A loop of `__xor`: put each key of `source` that `probe` lacks. */
  method AddMissing(target: set<Value>, source: set<Value>, probe: set<Value>) returns (r: set<Value>)
    ensures r == target + (source - probe)
  {
    r := target;
    var rest := source;
    while rest != {}
      invariant rest <= source
      invariant r == target + ((source - rest) - probe)
      decreases |rest|
    {
      var key :| key in rest;
      if key !in probe {
        r := r + {key};
      }
      rest := rest - {key};
    }
  }

  // ---------------------------------------------------------------- new sets from two sets

  /** `__union`: a copy of self (with a fresh table if self had none) that
      also holds every key of other. */
  method Union(self: Kh, other: Kh) returns (r: Kh)
    ensures r.Kh? && r.keys == Keys(self) + Keys(other)
  {
    var result := if self.Kh? then self.keys else {};
    if other.Kh? {
      result := CopyElements(result, other.keys);
    }
    r := Kh(result);
  }

  /** `__difference`: a copy of self without the keys of other; a copy of a
      Set without a table stays without one. */
  method Difference(self: Kh, other: Kh) returns (r: Kh)
    ensures self.NoTable? ==> r == NoTable
    ensures self.Kh? ==> r == Kh(self.keys - Keys(other))
  {
    if self.NoTable? {
      return NoTable;
    }
    var result := self.keys;
    if other.Kh? {
      result := RemoveElements(result, other.keys);
    }
    r := Kh(result);
  }

  /** `__intersection`: a new Set holding the keys of other that self holds. */
  method Intersection(self: Kh, other: Kh) returns (r: Kh)
    ensures r.Kh? && r.keys == Keys(self) * Keys(other)
  {
    if self.NoTable? || other.NoTable? {
      return Kh({});
    }
    var result := KeepCommon({}, other.keys, self.keys);
    r := Kh(result);
  }

  /** `__xor`: a new Set holding the keys in exactly one of self and other. */
  method Xor(self: Kh, other: Kh) returns (r: Kh)
    ensures r.Kh? && r.keys == (Keys(self) - Keys(other)) + (Keys(other) - Keys(self))
  {
    if self.NoTable? || |self.keys| == 0 {
      var result := {};
      if other.Kh? {
        result := CopyElements(result, other.keys);
      }
      XorWithEmpty(Keys(self), Keys(other));
      return Kh(result);
    }
    if other.NoTable? || |other.keys| == 0 {
      var result := CopyElements({}, self.keys);
      XorWithEmpty(Keys(other), Keys(self));
      return Kh(result);
    }
    var result := AddMissing({}, self.keys, other.keys);
    result := AddMissing(result, other.keys, self.keys);
    EmptyUnion(self.keys - other.keys);
    r := Kh(result);
  }

  lemma XorWithEmpty(e: set<Value>, b: set<Value>)
    requires |e| == 0
    ensures {} + b == b
    ensures (e - b) + (b - e) == b && (b - e) + (e - b) == b
  {
  }

  // ---------------------------------------------------------------- comparisons

  /** `==` / `eql?`: a value that is not a Set is never equal; two empty
      Sets are equal; Sets of different sizes are not; otherwise every key
      of self must be in other. */
  function Equal(self: Kh, other: Operand): (b: bool)
  {
    if other.NotSet? then false
    else if Size(self) == 0 && Size(other.kh) == 0 then true
    else if self.NoTable? || other.kh.NoTable? || Size(self) != Size(other.kh) then false
    else self.keys <= other.kh.keys
  }

  /** `==` holds exactly for a Set with the same keys. */
  lemma EqualMeansSameKeys(self: Kh, other: Operand)
    ensures Equal(self, other) <==> other.SetArg? && Keys(self) == Keys(other.kh)
  {
    if other.SetArg? && self.Kh? && other.kh.Kh? && Size(self) == Size(other.kh) && self.keys <= other.kh.keys {
      SubsetCard(self.keys, other.kh.keys);
    }
  }

  /** `superset?` / `>=`. */
  function SupersetP(self: Kh, other: Operand): (r: Result<bool>)
  {
    if other.NotSet? then Err(ArgumentError)
    else if Size(other.kh) == 0 then Ok(true)
    else if self.NoTable? then Ok(false)
    else if Size(self) < Size(other.kh) then Ok(false)
    else Ok(other.kh.keys <= self.keys)
  }

  /** `proper_superset?` / `>`. */
  function ProperSupersetP(self: Kh, other: Operand): (r: Result<bool>)
  {
    if other.NotSet? then Err(ArgumentError)
    else if Size(other.kh) == 0 then Ok(self.Kh? && Size(self) > 0)
    else if self.NoTable? then Ok(false)
    else if Size(self) <= Size(other.kh) then Ok(false)
    else Ok(other.kh.keys <= self.keys)
  }

  /** `subset?` / `<=`. */
  function SubsetP(self: Kh, other: Operand): (r: Result<bool>)
  {
    if other.NotSet? then Err(ArgumentError)
    else if Size(self) == 0 then Ok(true)
    else if other.kh.NoTable? then Ok(false)
    else if Size(other.kh) < Size(self) then Ok(false)
    else Ok(self.keys <= other.kh.keys)
  }

  /** `proper_subset?` / `<`. */
  function ProperSubsetP(self: Kh, other: Operand): (r: Result<bool>)
  {
    if other.NotSet? then Err(ArgumentError)
    else if Size(self) == 0 then Ok(other.kh.Kh? && Size(other.kh) > 0)
    else if other.kh.NoTable? then Ok(false)
    else if Size(other.kh) <= Size(self) then Ok(false)
    else Ok(self.keys <= other.kh.keys)
  }

  /** The four inclusion tests raise ArgumentError for a value that is not
      a Set, and otherwise answer the set-theoretic question; the size
      shortcuts never change the answer. */
  lemma InclusionMeaning(self: Kh, other: Operand)
    ensures other.NotSet? ==> (SubsetP(self, other) == Err(ArgumentError)
                               && SupersetP(self, other) == Err(ArgumentError)
                               && ProperSubsetP(self, other) == Err(ArgumentError)
                               && ProperSupersetP(self, other) == Err(ArgumentError))
    ensures other.SetArg? ==> SubsetP(self, other) == Ok(Keys(self) <= Keys(other.kh))
    ensures other.SetArg? ==> SupersetP(self, other) == Ok(Keys(other.kh) <= Keys(self))
    ensures other.SetArg? ==> ProperSubsetP(self, other) == Ok(Keys(self) < Keys(other.kh))
    ensures other.SetArg? ==> ProperSupersetP(self, other) == Ok(Keys(other.kh) < Keys(self))
  {
    if other.SetArg? {
      var a, b := Keys(self), Keys(other.kh);
      if a <= b { SubsetCard(a, b); }
      if b <= a { SubsetCard(b, a); }
      if a < b { ProperSubsetCard(a, b); }
      if b < a { ProperSubsetCard(b, a); }
    }
  }

  /** The empty Set is a subset of every Set. */
  lemma EmptyIsSubset(self: Kh, other: Kh)
    requires Size(self) == 0
    ensures SubsetP(self, SetArg(other)) == Ok(true)
  {
  }

  /** `intersect?`: false when either Set is empty; otherwise the smaller
      Set is searched for a key of the other. */
  function IntersectP(self: Kh, other: Operand): (r: Result<bool>)
  {
    if other.NotSet? then Err(ArgumentError)
    else if self.NoTable? || other.kh.NoTable? || Size(self) == 0 || Size(other.kh) == 0 then Ok(false)
    else if Size(self) < Size(other.kh) then Ok(exists k :: k in self.keys && k in other.kh.keys)
    else Ok(exists k :: k in other.kh.keys && k in self.keys)
  }

  /** `disjoint?`: the negation of `intersect?`. */
  function DisjointP(self: Kh, other: Operand): (r: Result<bool>)
  {
    match IntersectP(self, other)
    case Ok(b) => Ok(!b)
    case Err(e) => Err(e)
  }

  /** `intersect?` holds exactly when the Sets share a key, `disjoint?`
      exactly when they share none. */
  lemma IntersectMeaning(self: Kh, other: Operand)
    ensures other.NotSet? ==> IntersectP(self, other) == Err(ArgumentError) && DisjointP(self, other) == Err(ArgumentError)
    ensures other.SetArg? ==> IntersectP(self, other) == Ok(Keys(self) * Keys(other.kh) != {})
    ensures other.SetArg? ==> DisjointP(self, other) == Ok(Keys(self) * Keys(other.kh) == {})
  {
    if other.SetArg? {
      var a, b := Keys(self), Keys(other.kh);
      if a * b != {} {
        var k :| k in a * b;
        SubsetCard({k}, a);
        SubsetCard({k}, b);
      } else {
        assert forall k :: k in a && k in b ==> k in a * b;
      }
    }
  }

  /** `<=>`: nil for a value that is not a Set; then the empty cases; then
      the size difference chooses which inclusion to test. */
  function Cmp(self: Kh, other: Operand): (r: Option<int>)
  {
    if other.NotSet? then None
    else if Size(self) == 0 then (if Size(other.kh) == 0 then Some(0) else Some(-1))
    else if Size(other.kh) == 0 then Some(1)
    else
      var sizeCmp := Size(self) - Size(other.kh);
      if sizeCmp < 0 then (if Keys(self) <= Keys(other.kh) then Some(-1) else None)
      else if sizeCmp > 0 then (if Keys(other.kh) <= Keys(self) then Some(1) else None)
      else if Keys(self) <= Keys(other.kh) then Some(0)
      else None
  }

  /** `<=>` answers -1 for a proper subset, 0 for an equal Set, 1 for a
      proper superset, and nil for a Set it cannot order or a non-Set. */
  lemma CmpMeaning(self: Kh, other: Operand)
    ensures Cmp(self, other) == Some(-1) <==> other.SetArg? && Keys(self) < Keys(other.kh)
    ensures Cmp(self, other) == Some(0) <==> other.SetArg? && Keys(self) == Keys(other.kh)
    ensures Cmp(self, other) == Some(1) <==> other.SetArg? && Keys(other.kh) < Keys(self)
    ensures Cmp(self, other) == None <==>
              other.NotSet? || (!(Keys(self) <= Keys(other.kh)) && !(Keys(other.kh) <= Keys(self)))
  {
    if other.SetArg? {
      var a, b := Keys(self), Keys(other.kh);
      if a <= b { SubsetCard(a, b); }
      if b <= a { SubsetCard(b, a); }
      if a < b { ProperSubsetCard(a, b); }
      if b < a { ProperSubsetCard(b, a); }
    }
  }

  /** `<=>` agrees with `==`, `<` and `>`. */
  lemma CmpAgreesWithTests(self: Kh, other: Kh)
    ensures Cmp(self, SetArg(other)) == Some(0) <==> Equal(self, SetArg(other))
    ensures Cmp(self, SetArg(other)) == Some(-1) <==> ProperSubsetP(self, SetArg(other)) == Ok(true)
    ensures Cmp(self, SetArg(other)) == Some(1) <==> ProperSupersetP(self, SetArg(other)) == Ok(true)
  {
    CmpMeaning(self, SetArg(other));
    EqualMeansSameKeys(self, SetArg(other));
    InclusionMeaning(self, SetArg(other));
  }

  // ---------------------------------------------------------------- flatten

  /** `MAX_NESTED_DEPTH`: the nesting at which flattening gives up. */
  const MAX_NESTED_DEPTH: nat := 16

  /** The table of the Set object `id`. */
  function TableOf(env: map<nat, Kh>, id: nat): Kh
  {
    if id in env then env[id] else NoTable
  }

  /** `set_flatten_recursive` started at depth `d` on the keys `s` reports
      failure: the depth is already at the limit, or some nested Set with a
      table fails one level deeper. */
  ghost predicate Fails(env: map<nat, Kh>, s: set<Value>, d: nat)
    decreases MAX_NESTED_DEPTH - d, 1
  {
    d >= MAX_NESTED_DEPTH || exists v :: v in s && ElemFails(env, v, d)
  }

  ghost predicate ElemFails(env: map<nat, Kh>, v: Value, d: nat)
    decreases MAX_NESTED_DEPTH - d, 0
  {
    d < MAX_NESTED_DEPTH && v.SetVal? && TableOf(env, v.id).Kh?
    && Fails(env, TableOf(env, v.id).keys, d + 1)
  }

  /** The keys `set_flatten_recursive` puts into the target: every non-Set
      key, and the flattened keys of every nested Set that has a table. */
  ghost function Leaves(env: map<nat, Kh>, s: set<Value>, d: nat): set<Value>
    decreases MAX_NESTED_DEPTH - d, 1
  {
    set v, w | v in s && w in ElemLeaves(env, v, d) :: w
  }

  ghost function ElemLeaves(env: map<nat, Kh>, v: Value, d: nat): set<Value>
    decreases MAX_NESTED_DEPTH - d, 0
  {
    if v.Atom? then {v}
    else if d < MAX_NESTED_DEPTH && TableOf(env, v.id).Kh? then Leaves(env, TableOf(env, v.id).keys, d + 1)
    else {}
  }

  lemma LeavesAdd(env: map<nat, Kh>, s: set<Value>, x: Value, d: nat)
    ensures Leaves(env, s + {x}, d) == Leaves(env, s, d) + ElemLeaves(env, x, d)
    ensures Fails(env, s + {x}, d) <==> Fails(env, s, d) || ElemFails(env, x, d)
  {
  }

  lemma LeavesEmpty(env: map<nat, Kh>, d: nat)
    ensures Leaves(env, {}, d) == {}
    ensures Fails(env, {}, d) <==> d >= MAX_NESTED_DEPTH
  {
  }

  /** `set_flatten_recursive`: flatten the keys `source`, found at nesting
      depth `depth`, into `target`; `ok` is false when the depth limit is
      reached.  The depth counter the C code passes by pointer is a value
      here: it goes up by one for the nested call and back down after it. */
  method FlattenInto(env: map<nat, Kh>, target: set<Value>, source: set<Value>, depth: nat)
    returns (ok: bool, out: set<Value>)
    ensures ok <==> !Fails(env, source, depth)
    ensures ok ==> out == target + Leaves(env, source, depth)
    decreases MAX_NESTED_DEPTH - depth, 1
  {
    if depth >= MAX_NESTED_DEPTH {
      return false, target;
    }
    out := target;
    var rest := source;
    LeavesEmpty(env, depth);
    while rest != {}
      invariant rest <= source
      invariant !Fails(env, source - rest, depth)
      invariant out == target + Leaves(env, source - rest, depth)
      decreases |rest|
    {
      var elem :| elem in rest;
      var done := source - rest;
      LeavesAdd(env, done, elem, depth);
      var elemOk;
      elemOk, out := FlattenElement(env, out, elem, depth);
      if !elemOk {
        assert elem in source;
        return false, out;
      }
      MoveToDone(source, rest, elem);
      rest := rest - {elem};
    }
    assert source - rest == source;
    ok := true;
  }

  lemma EmptyUnion(x: set<Value>)
    ensures {} + x == x
  {
  }

  lemma MoveToDone(source: set<Value>, rest: set<Value>, x: Value)
    requires x in rest && rest <= source
    ensures (source - rest) + {x} == source - (rest - {x})
  {
  }

  /** One round of the loop in `set_flatten_recursive`: a nested Set with a
      table is flattened one level deeper, any other value is put into the
      target, and a nested Set without a table is passed over. */
  method FlattenElement(env: map<nat, Kh>, target: set<Value>, elem: Value, depth: nat)
    returns (ok: bool, out: set<Value>)
    requires depth < MAX_NESTED_DEPTH
    ensures ok <==> !ElemFails(env, elem, depth)
    ensures ok ==> out == target + ElemLeaves(env, elem, depth)
    decreases MAX_NESTED_DEPTH - depth, 0
  {
    if elem.SetVal? {
      var nested := TableOf(env, elem.id);
      if nested.Kh? {
        ok, out := FlattenInto(env, target, nested.keys, depth + 1);
        return;
      }
      return true, target;
    }
    ok, out := true, target + {elem};
  }

  /** The fast-path scan of `flatten` and `flatten!`: is any key a Set? */
  method HasNestedSets(s: set<Value>) returns (found: bool)
    ensures found <==> exists v :: v in s && v.SetVal?
  {
    found := false;
    var rest := s;
    while rest != {}
      invariant rest <= s
      invariant forall v :: v in s - rest ==> v.Atom?
      decreases |rest|
    {
      var elem :| elem in rest;
      if elem.SetVal? {
        assert elem in s;
        return true;
      }
      rest := rest - {elem};
    }
    assert s - rest == s;
  }

  /** With no nested Set among the keys, flattening cannot fail and keeps
      the keys as they are: the fast paths agree with the general case. */
  lemma {:induction false} FlatKeysStay(env: map<nat, Kh>, s: set<Value>, d: nat)
    requires d < MAX_NESTED_DEPTH
    requires forall v :: v in s ==> v.Atom?
    ensures !Fails(env, s, d)
    ensures Leaves(env, s, d) == s
  {
    forall w | w in s ensures w in Leaves(env, s, d) {
      assert w in ElemLeaves(env, w, d);
    }
    forall w | w in Leaves(env, s, d) ensures w in s {
      var v :| v in s && w in ElemLeaves(env, v, d);
      assert ElemLeaves(env, v, d) == {v};
    }
    forall v | v in s ensures !ElemFails(env, v, d) {
      assert v.Atom?;
    }
  }

  /** The flattened keys hold no Set, and every non-Set key survives. */
  lemma {:induction false} LeavesAreAtoms(env: map<nat, Kh>, s: set<Value>, d: nat)
    ensures forall w :: w in Leaves(env, s, d) ==> w.Atom?
    ensures d < MAX_NESTED_DEPTH ==> forall v :: v in s && v.Atom? ==> v in Leaves(env, s, d)
    decreases MAX_NESTED_DEPTH - d
  {
    forall w | w in Leaves(env, s, d) ensures w.Atom? {
      var v :| v in s && w in ElemLeaves(env, v, d);
      if v.SetVal? && d < MAX_NESTED_DEPTH && TableOf(env, v.id).Kh? {
        LeavesAreAtoms(env, TableOf(env, v.id).keys, d + 1);
      }
    }
    if d < MAX_NESTED_DEPTH {
      forall v | v in s && v.Atom? ensures v in Leaves(env, s, d) {
        assert v in ElemLeaves(env, v, d);
      }
    }
  }

  /** `ids` is a chain of nested Sets below the keys `s`: `s` holds the
      first, whose table holds the second, and so on, each with a table. */
  ghost predicate Chain(env: map<nat, Kh>, s: set<Value>, ids: seq<nat>)
    decreases |ids|
  {
    |ids| == 0 || (SetVal(ids[0]) in s && TableOf(env, ids[0]).Kh?
                   && Chain(env, TableOf(env, ids[0]).keys, ids[1..]))
  }

  /** Flattening from depth `d` fails exactly when the Sets nest
      `MAX_NESTED_DEPTH - d` levels below the keys `s`; from the top, that
      is a chain of 16 nested Sets, a Set that contains itself included. */
  lemma {:induction false} FailsIffDeepChain(env: map<nat, Kh>, s: set<Value>, d: nat)
    requires d <= MAX_NESTED_DEPTH
    ensures Fails(env, s, d) <==> exists ids :: |ids| == MAX_NESTED_DEPTH - d && Chain(env, s, ids)
    decreases MAX_NESTED_DEPTH - d
  {
    if d == MAX_NESTED_DEPTH {
      assert Chain(env, s, []);
    } else {
      if Fails(env, s, d) {
        var v :| v in s && ElemFails(env, v, d);
        var t := TableOf(env, v.id).keys;
        FailsIffDeepChain(env, t, d + 1);
        var rest :| |rest| == MAX_NESTED_DEPTH - (d + 1) && Chain(env, t, rest);
        var ids := [v.id] + rest;
        assert ids[1..] == rest;
        assert Chain(env, s, ids);
      }
      if exists ids :: |ids| == MAX_NESTED_DEPTH - d && Chain(env, s, ids) {
        var ids :| |ids| == MAX_NESTED_DEPTH - d && Chain(env, s, ids);
        var v := SetVal(ids[0]);
        var t := TableOf(env, ids[0]).keys;
        FailsIffDeepChain(env, t, d + 1);
        assert |ids[1..]| == MAX_NESTED_DEPTH - (d + 1) && Chain(env, t, ids[1..]);
        assert ElemFails(env, v, d);
      }
    }
  }

  /** A Set that holds itself cannot be flattened. */
  lemma {:induction false} SelfContainingFails(env: map<nat, Kh>, id: nat, d: nat)
    requires TableOf(env, id).Kh? && SetVal(id) in TableOf(env, id).keys
    ensures Fails(env, TableOf(env, id).keys, d)
    decreases MAX_NESTED_DEPTH - d
  {
    if d < MAX_NESTED_DEPTH {
      SelfContainingFails(env, id, d + 1);
      assert ElemFails(env, SetVal(id), d);
    }
  }

  /** `flatten`: a new Set holding the flattened keys of self; an empty or
      uninitialised self gives a new empty Set, a self without nested Sets
      a copy of itself, and a nesting 16 deep raises ArgumentError. */
  method Flatten(env: map<nat, Kh>, self: Kh) returns (r: Result<Kh>)
    ensures Fails(env, Keys(self), 0) ==> r == Err(ArgumentError)
    ensures !Fails(env, Keys(self), 0) ==> r == Ok(Kh(Leaves(env, Keys(self), 0)))
  {
    if self.NoTable? || |self.keys| == 0 {
      assert Keys(self) == {};
      LeavesEmpty(env, 0);
      return Ok(Kh({}));
    }
    var nested := HasNestedSets(self.keys);
    if !nested {
      assert forall v :: v in self.keys ==> v.Atom?;
      FlatKeysStay(env, self.keys, 0);
      return Ok(self);
    }
    var ok, result := FlattenInto(env, {}, self.keys, 0);
    if !ok {
      return Err(ArgumentError);
    }
    EmptyUnion(Leaves(env, self.keys, 0));
    r := Ok(Kh(result));
  }

  // ---------------------------------------------------------------- Set objects

  /** `struct RSet`: the object header's frozen flag and the table pointer. */
  class RSet {
    var kh: Kh
    var frozen: bool

    /** `set_init`: a fresh Set with an empty table. */
    constructor ()
      ensures kh == Kh({}) && !frozen
    {
      kh := Kh({});
      frozen := false;
    }

    /** The keys of this Set. */
    function Elems(): set<Value>
      reads this
    {
      Keys(kh)
    }

    /** `add?`: self when `obj` was added, nil when it was already there;
        a Set without a table raises RuntimeError. */
    method AddP(obj: Value) returns (r: Outcome)
      modifies this
      ensures old(kh).NoTable? ==> r == Raise(RuntimeError) && kh == old(kh)
      ensures old(kh).Kh? ==> kh == Kh(old(kh).keys + {obj})
      ensures old(kh).Kh? ==> (r == Nil <==> obj in old(kh).keys) && (r != Nil ==> r == Self)
      ensures frozen == old(frozen)
    {
      if kh.NoTable? {
        return Raise(RuntimeError);
      }
      r := if obj in kh.keys then Nil else Self;
      kh := Kh(kh.keys + {obj});
    }

    /** `delete?`: self when `obj` was removed, nil when it was absent. */
    method DeleteP(obj: Value) returns (r: Outcome)
      modifies this
      ensures kh == (if old(kh).Kh? then Kh(old(kh).keys - {obj}) else NoTable)
      ensures r == Self <==> obj in old(Elems())
      ensures r == Self || r == Nil
      ensures frozen == old(frozen)
    {
      if kh.NoTable? {
        return Nil;
      }
      if obj in kh.keys {
        kh := Kh(kh.keys - {obj});
        return Self;
      }
      r := Nil;
    }

    /** `__merge`: put every key of other into self. */
    method Merge(other: RSet) returns (r: Outcome)
      modifies this
      ensures old(kh).NoTable? ==> r == Raise(RuntimeError) && kh == old(kh)
      ensures old(kh).Kh? ==> r == Self && kh == Kh(old(kh).keys + old(other.Elems()))
      ensures frozen == old(frozen)
    {
      if kh.NoTable? {
        return Raise(RuntimeError);
      }
      var source := other.kh;
      if source.NoTable? {
        return Self;
      }
      var merged := CopyElements(kh.keys, source.keys);
      kh := Kh(merged);
      r := Self;
    }

    /** `__subtract`: remove from self every key of other. */
    method Subtract(other: RSet) returns (r: Outcome)
      modifies this
      ensures r == Self
      ensures kh == (if old(kh).Kh? then Kh(old(kh).keys - old(other.Elems())) else NoTable)
      ensures frozen == old(frozen)
    {
      if kh.NoTable? {
        return Self;
      }
      var source := other.kh;
      if source.NoTable? {
        return Self;
      }
      var left := RemoveElements(kh.keys, source.keys);
      kh := Kh(left);
      r := Self;
    }

    /** `clear`: empty the table, if there is one. */
    method Clear()
      modifies this
      ensures kh == (if old(kh).Kh? then Kh({}) else NoTable)
      ensures frozen == old(frozen)
    {
      if kh.Kh? {
        kh := Kh({});
      }
    }

    /** `flatten!`: replace the keys by their flattened form and answer
        self; nil when there is nothing to flatten; a frozen Set raises
        FrozenError and a nesting 16 deep ArgumentError, leaving the keys. */
    method FlattenBang(env: map<nat, Kh>) returns (r: Outcome)
      modifies this
      ensures old(frozen) ==> r == Raise(FrozenError) && kh == old(kh)
      ensures !old(frozen) && (forall v :: v in old(Elems()) ==> v.Atom?) ==> r == Nil && kh == old(kh)
      ensures !old(frozen) && (exists v :: v in old(Elems()) && v.SetVal?) ==>
                if Fails(env, old(Elems()), 0) then r == Raise(ArgumentError) && kh == old(kh)
                else r == Self && kh == Kh(Leaves(env, old(Elems()), 0))
      ensures frozen == old(frozen)
    {
      if frozen {
        return Raise(FrozenError);
      }
      if kh.NoTable? || |kh.keys| == 0 {
        return Nil;
      }
      var nested := HasNestedSets(kh.keys);
      if !nested {
        return Nil;
      }
      ghost var nestedSet :| nestedSet in kh.keys && nestedSet.SetVal?;
      assert nestedSet in Elems() && !nestedSet.Atom?;
      r := ReplaceFlattened(env);
    }

    /** The tail of `flatten!`: flatten into a new table and install it. */
    method ReplaceFlattened(env: map<nat, Kh>) returns (r: Outcome)
      requires kh.Kh?
      modifies this
      ensures Fails(env, old(kh.keys), 0) ==> r == Raise(ArgumentError) && kh == old(kh)
      ensures !Fails(env, old(kh.keys), 0) ==> r == Self && kh == Kh(Leaves(env, old(kh.keys), 0))
      ensures frozen == old(frozen)
    {
      var ok, result := FlattenInto(env, {}, kh.keys, 0);
      if !ok {
        return Raise(ArgumentError);
      }
      EmptyUnion(Leaves(env, kh.keys, 0));
      kh := Kh(result);
      r := Self;
    }
  }
}
