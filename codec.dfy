/** `snakeToCamel` and `camelToSnake` over whole values
    (src/services/supabase.provider.ts:227-258): null and primitives are
    returned as they are, arrays are mapped element by element, and an object
    is rebuilt by assigning every converted key, in property order, into a
    fresh object.  `camelToSnake` stores the value of `poNumber` under
    `po_number` without converting it. */
module CaseCodec {
  import opened KeyCodec
  import opened JsonValue

  const PoNumberKey: string := "poNumber"
  const PoNumberColumn: string := "po_number"

  /** `snakeToCamel`. */
  function ToCamel(v: Json): (r: Json)
    decreases v, 1
    ensures !v.JArr? && !v.JObj? ==> r == v
    ensures v.JArr? ==> r.JArr? && |r.elems| == |v.elems|
    ensures v.JArr? ==> forall i :: 0 <= i < |v.elems| ==> r.elems[i] == ToCamel(v.elems[i])
    ensures v.JObj? ==> r.JObj? && DistinctKeys(r.fields)
    ensures v.JObj? ==> KeySet(r.fields) == set k | k in KeySet(v.fields) :: CamelKey(k)
  {
    match v
    case JArr(xs) => JArr(seq(|xs|, i requires 0 <= i < |xs| => ToCamel(xs[i])))
    case JObj(fs) =>
      var p := CamelPairs(fs);
      AssembleKeys(p);
      JObj(Assemble(p))
    case _ => v
  }

  /** The pairs the `reduce` of `snakeToCamel` assigns, in property order. */
  function CamelPairs(fs: Fields): (p: Fields)
    decreases JObj(fs), 0
    ensures |p| == |fs|
    ensures forall i :: 0 <= i < |fs| ==> p[i].0 == CamelKey(fs[i].0)
    ensures KeySet(p) == set k | k in KeySet(fs) :: CamelKey(k)
  {
    var p := seq(|fs|, i requires 0 <= i < |fs| => (CamelKey(fs[i].0), ToCamel(fs[i].1)));
    KeySetImage(fs, p, CamelKey);
    p
  }

  /** `camelToSnake`. */
  function ToSnake(v: Json): (r: Json)
    decreases v, 2
    ensures !v.JArr? && !v.JObj? ==> r == v
    ensures v.JArr? ==> r.JArr? && |r.elems| == |v.elems|
    ensures v.JArr? ==> forall i :: 0 <= i < |v.elems| ==> r.elems[i] == ToSnake(v.elems[i])
    ensures v.JObj? ==> r.JObj? && DistinctKeys(r.fields)
    ensures v.JObj? ==> KeySet(r.fields) == set k | k in KeySet(v.fields) :: SnakeKey(k)
  {
    match v
    case JArr(xs) => JArr(seq(|xs|, i requires 0 <= i < |xs| => ToSnake(xs[i])))
    case JObj(fs) =>
      var p := SnakePairs(fs);
      AssembleKeys(p);
      JObj(Assemble(p))
    case _ => v
  }

  /** The pairs the `reduce` of `camelToSnake` assigns, in property order. */
  function SnakePairs(fs: Fields): (p: Fields)
    decreases JObj(fs), 1
    ensures |p| == |fs|
    ensures forall i :: 0 <= i < |fs| ==> p[i].0 == SnakeKey(fs[i].0)
    ensures forall i :: 0 <= i < |fs| && fs[i].0 == PoNumberKey ==> p[i].1 == fs[i].1
    ensures KeySet(p) == set k | k in KeySet(fs) :: SnakeKey(k)
  {
    var p := seq(|fs|, i requires 0 <= i < |fs| => SnakeField(fs, i));
    KeySetImage(fs, p, SnakeKey);
    p
  }

  /** The assignment for property `i`: `poNumber` goes to `po_number` with
      its value as it is, every other key to its snake key with its value
      converted. */
  function SnakeField(fs: Fields, i: nat): (e: (string, Json))
    requires i < |fs|
    decreases JObj(fs), 0
    ensures e.0 == SnakeKey(fs[i].0)
    ensures fs[i].0 == PoNumberKey ==> e.1 == fs[i].1
    ensures fs[i].0 != PoNumberKey ==> e.1 == ToSnake(fs[i].1)
  {
    if fs[i].0 == PoNumberKey then
      PoNumberKeys();
      (PoNumberColumn, fs[i].1)
    else (SnakeKey(fs[i].0), ToSnake(fs[i].1))
  }

  /** The TypeError a call through an undefined `this` raises (V8's wording). */
  const UnboundCallMessage: string := "Cannot read properties of undefined (reading 'camelToSnake')"

  /** The values `camelToSnake` converts when it runs with `this` undefined:
      those on which it never reaches `this.camelToSnake(...)`, namely null
      and primitives, empty arrays, and objects whose every key is `poNumber`. */
  predicate ConvertsUnbound(v: Json)
  {
    match v
    case JArr(xs) => xs == []
    case JObj(fs) => forall i :: 0 <= i < |fs| ==> fs[i].0 == PoNumberKey
    case _ => true
  }

  /** `camelToSnake` called as `.map(this.camelToSnake)` passes it, detached
      from the provider: the method body runs with `this` undefined, so the
      element mapping of an array and every key other than `poNumber` throw. */
  function UnboundToSnake(v: Json): (r: Result<Json>)
    ensures r.Ok? <==> ConvertsUnbound(v)
    ensures r.Ok? ==> r.value == ToSnake(v)
    ensures r.Err? ==> r.message == UnboundCallMessage
  {
    match v
    case JArr(xs) => if xs == [] then Ok(JArr([])) else Err(UnboundCallMessage)
    case JObj(fs) =>
      var p := UnboundPairs(fs);
      if p.Err? then Err(p.message)
      else
        assert p.value == SnakePairs(fs) by {
          PoNumberKeys();
        }
        Ok(JObj(Assemble(p.value)))
    case _ => Ok(v)
  }

  /** The detached `reduce` over the keys, in property order: `poNumber` is
      copied to `po_number`; any other key throws at `this.camelToSnake`. */
  function UnboundPairs(fs: Fields): (r: Result<Fields>)
    ensures r.Ok? <==> forall i :: 0 <= i < |fs| ==> fs[i].0 == PoNumberKey
    ensures r.Ok? ==> |r.value| == |fs| && forall i :: 0 <= i < |fs| ==> r.value[i] == (PoNumberColumn, fs[i].1)
    ensures r.Err? ==> r.message == UnboundCallMessage
  {
    if fs == [] then Ok([])
    else if fs[0].0 != PoNumberKey then Err(UnboundCallMessage)
    else
      var rest := UnboundPairs(fs[1..]);
      if rest.Err? then rest
      else Ok([(PoNumberColumn, fs[0].1)] + rest.value)
  }

  /** Everything `snakeToCamel` leaves unchanged: every object, at every depth,
      has distinct keys and no key with a `_` followed by a-z. */
  predicate CamelClean(v: Json)
    decreases v
  {
    match v
    case JArr(xs) => forall i :: 0 <= i < |xs| ==> CamelClean(xs[i])
    case JObj(fs) =>
      DistinctKeys(fs) && forall i :: 0 <= i < |fs| ==> NoHump(fs[i].0) && CamelClean(fs[i].1)
    case _ => true
  }

  /** Records in storage shape that survive a trip through camelCase: distinct
      keys without A-Z at every depth, and a `po_number` value that
      `snakeToCamel` leaves unchanged (on the way back it is not converted). */
  predicate SnakeClean(v: Json)
    decreases v
  {
    match v
    case JArr(xs) => forall i :: 0 <= i < |xs| ==> SnakeClean(xs[i])
    case JObj(fs) =>
      DistinctKeys(fs) &&
      forall i :: 0 <= i < |fs| ==>
        NoUpper(fs[i].0) && (if fs[i].0 == PoNumberColumn then CamelClean(fs[i].1) else SnakeClean(fs[i].1))
    case _ => true
  }

  /** Every value `snakeToCamel` produces is camelCase throughout. */
  lemma {:induction false} ToCamelIsClean(v: Json)
    ensures CamelClean(ToCamel(v))
    decreases v
  {
    match v
    case JArr(xs) =>
      forall i | 0 <= i < |xs| ensures CamelClean(ToCamel(v).elems[i]) {
        ToCamelIsClean(xs[i]);
      }
    case JObj(fs) =>
      var p := CamelPairs(fs);
      var a := Assemble(p);
      assert ToCamel(v) == JObj(a);
      forall i | 0 <= i < |a| ensures NoHump(a[i].0) && CamelClean(a[i].1) {
        AssembleValues(p, i);
        var j :| 0 <= j < |p| && p[j] == a[i];
        CamelKeyNoHump(fs[j].0);
        ToCamelIsClean(fs[j].1);
      }
    case _ =>
  }

  /** The values `snakeToCamel` leaves unchanged are exactly the clean ones
      (one direction here, the other is `ToCamelIsClean`). */
  lemma {:induction false} ToCamelOfClean(v: Json)
    requires CamelClean(v)
    ensures ToCamel(v) == v
    decreases v
  {
    match v
    case JArr(xs) =>
      forall i | 0 <= i < |xs| ensures ToCamel(v).elems[i] == xs[i] {
        ToCamelOfClean(xs[i]);
      }
    case JObj(fs) =>
      var p := CamelPairs(fs);
      forall i | 0 <= i < |fs| ensures p[i] == fs[i] {
        CamelKeyFixpoint(fs[i].0);
        ToCamelOfClean(fs[i].1);
      }
      assert p == fs;
      AssembleDistinct(fs);
    case _ =>
  }

  /** `snakeToCamel` is idempotent on every value. */
  lemma ToCamelIdempotent(v: Json)
    ensures ToCamel(ToCamel(v)) == ToCamel(v)
  {
    ToCamelIsClean(v);
    ToCamelOfClean(ToCamel(v));
  }

  /** A camelCase value written to storage and read back is unchanged. */
  lemma {:induction false} CamelOfSnakeValue(v: Json)
    requires CamelClean(v)
    ensures ToCamel(ToSnake(v)) == v
    decreases v, 1
  {
    match v
    case JArr(xs) =>
      forall i | 0 <= i < |xs| ensures ToCamel(ToSnake(v)).elems[i] == xs[i] {
        CamelOfSnakeValue(xs[i]);
      }
    case JObj(fs) => CamelOfSnakeObject(v);
    case _ =>
  }

  /** The object case of `CamelOfSnakeValue`. */
  lemma {:induction false} CamelOfSnakeObject(v: Json)
    requires v.JObj? && CamelClean(v)
    ensures ToCamel(ToSnake(v)) == v
    decreases v, 0
  {
    var fs := v.fields;
    var sp := SnakePairs(fs);
    assert DistinctKeys(sp) by {
      forall i, j | 0 <= i < j < |sp| ensures sp[i].0 != sp[j].0 {
        SnakeKeyInjective(fs[i].0, fs[j].0);
      }
    }
    AssembleDistinct(sp);
    assert ToSnake(v) == JObj(sp);
    var cp := CamelPairs(sp);
    forall i | 0 <= i < |fs| ensures cp[i] == fs[i] {
      CamelOfSnake(fs[i].0);
      if fs[i].0 == PoNumberKey {
        ToCamelOfClean(fs[i].1);
      } else {
        CamelOfSnakeValue(fs[i].1);
      }
    }
    assert cp == fs;
    AssembleDistinct(fs);
  }

  /** A stored record read as camelCase and written back is unchanged. */
  lemma {:induction false} SnakeOfCamelValue(v: Json)
    requires SnakeClean(v)
    ensures ToSnake(ToCamel(v)) == v
    decreases v, 2
  {
    match v
    case JArr(xs) =>
      forall i | 0 <= i < |xs| ensures ToSnake(ToCamel(v)).elems[i] == xs[i] {
        SnakeOfCamelValue(xs[i]);
      }
    case JObj(fs) => SnakeOfCamelObject(v);
    case _ =>
  }

  /** The object case of `SnakeOfCamelValue`. */
  lemma {:induction false} SnakeOfCamelObject(v: Json)
    requires v.JObj? && SnakeClean(v)
    ensures ToSnake(ToCamel(v)) == v
    decreases v, 1
  {
    var fs := v.fields;
    var cp := CamelPairs(fs);
    assert DistinctKeys(cp) by {
      forall i, j | 0 <= i < j < |cp| ensures cp[i].0 != cp[j].0 {
        CamelKeyInjective(fs[i].0, fs[j].0);
      }
    }
    AssembleDistinct(cp);
    assert ToCamel(v) == JObj(cp);
    var sp := SnakePairs(cp);
    forall i | 0 <= i < |fs| ensures sp[i] == fs[i] {
      SnakeOfCamelField(fs, i);
    }
    assert sp == fs;
    AssembleDistinct(fs);
  }

  /** One property of `SnakeOfCamelObject`: its key comes back, and so does
      its value, the one under `po_number` because it is camelCase already. */
  lemma {:induction false} SnakeOfCamelField(fs: Fields, i: nat)
    requires i < |fs| && SnakeClean(JObj(fs))
    ensures SnakePairs(CamelPairs(fs))[i] == fs[i]
    decreases JObj(fs), 0
  {
    var cp := CamelPairs(fs);
    assert NoUpper(fs[i].0);
    SnakeOfCamel(fs[i].0);
    PoNumberKeys();
    if fs[i].0 == PoNumberColumn {
      assert cp[i].0 == PoNumberKey;
      ToCamelOfClean(fs[i].1);
    } else {
      assert cp[i].0 != PoNumberKey;
      SnakeOfCamelValue(fs[i].1);
    }
  }

  /** With no two keys colliding in snake_case, `camelToSnake` keeps the
      property order and converts every value except the one under `poNumber`. */
  lemma ToSnakeInOrder(fs: Fields)
    requires forall i, j :: 0 <= i < j < |fs| ==> SnakeKey(fs[i].0) != SnakeKey(fs[j].0)
    ensures |ToSnake(JObj(fs)).fields| == |fs|
    ensures forall i :: 0 <= i < |fs| ==>
      ToSnake(JObj(fs)).fields[i] ==
        if fs[i].0 == PoNumberKey then (PoNumberColumn, fs[i].1) else (SnakeKey(fs[i].0), ToSnake(fs[i].1))
  {
    PoNumberKeys();
    AssembleDistinct(SnakePairs(fs));
  }

  /** With no two keys colliding in camelCase, `snakeToCamel` keeps the
      property order and converts every value. */
  lemma CamelInOrder(fs: Fields)
    requires forall i, j :: 0 <= i < j < |fs| ==> CamelKey(fs[i].0) != CamelKey(fs[j].0)
    ensures |ToCamel(JObj(fs)).fields| == |fs|
    ensures forall i :: 0 <= i < |fs| ==> ToCamel(JObj(fs)).fields[i] == (CamelKey(fs[i].0), ToCamel(fs[i].1))
  {
    AssembleDistinct(CamelPairs(fs));
  }

  /** When two keys collide, the property assigned last wins. */
  lemma ToCamelLastWins(fs: Fields, k: string)
    ensures Get(ToCamel(JObj(fs)).fields, k) == LastGet(CamelPairs(fs), k)
  {
    AssembleGet(CamelPairs(fs), k);
  }

  /** Because the value under `poNumber` is copied unconverted,
      `camelToSnake` is not idempotent on values. */
  lemma ToSnakeNotIdempotent()
    ensures var x := JObj([(PoNumberKey, JObj([("aB", JNull)]))]);
            ToSnake(ToSnake(x)) != ToSnake(x)
  {
    var inner := JObj([("aB", JNull)]);
    var x := JObj([(PoNumberKey, inner)]);
    ToSnakeInOrder(x.fields);
    var once := ToSnake(x);
    assert once.fields[0] == (PoNumberColumn, inner);
    ToSnakeInOrder(once.fields);
    var twice := ToSnake(once);
    assert twice.fields[0].1 == ToSnake(inner) by {
      assert once.fields[0].0 != PoNumberKey;
    }
    ToSnakeInOrder(inner.fields);
    SnakeKeyCollision();
    assert ToSnake(inner).fields[0].0 == "a_b";
    assert twice.fields[0].1 != once.fields[0].1 by {
      assert inner.fields[0].0 == "aB";
      assert "a_b" != "aB" by { assert |"a_b"| == 3; }
    }
  }

  /** The same copy makes the condition on `po_number` in `SnakeClean`
      necessary: a snake_case object stored under `po_number` comes back in
      camelCase. */
  lemma PoNumberValueNotRestored()
    ensures var x := JObj([(PoNumberColumn, JObj([("a_b", JNull)]))]);
            ToSnake(ToCamel(x)) != x
  {
    var inner := JObj([("a_b", JNull)]);
    var x := JObj([(PoNumberColumn, inner)]);
    PoNumberKeys();
    CamelInOrder(x.fields);
    var c := ToCamel(x);
    assert c.fields == [(PoNumberKey, ToCamel(inner))];
    ToSnakeInOrder(c.fields);
    assert ToSnake(c).fields[0] == (PoNumberColumn, ToCamel(inner));
    CamelInOrder(inner.fields);
    CamelKeyOfCollision();
    assert ToCamel(inner).fields[0].0 == "aB";
  }
}
