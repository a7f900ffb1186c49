/** JSON-like values as the provider sees them: records read from and
    written to the store.  An object is an association list in property
    order; `Put` is JavaScript property assignment (an existing property keeps
    its place and takes the new value, a new one goes last) and `Assemble` is
    a `reduce` that assigns a list of pairs, one after another, into a fresh
    `{}`. */
module JsonValue {

  datatype Option<T> = None | Some(value: T)

  /** A settled promise: resolved with a value or rejected with an error message. */
  datatype Result<T> = Ok(value: T) | Err(message: string)

  datatype Json =
    | JNull
    | JBool(b: bool)
    | JNum(n: int)
    | JStr(s: string)
    | JArr(elems: seq<Json>)
    | JObj(fields: seq<(string, Json)>)

  type Fields = seq<(string, Json)>

  function KeySet(fs: Fields): set<string>
  {
    set i | 0 <= i < |fs| :: fs[i].0
  }

  predicate DistinctKeys(fs: Fields)
  {
    forall i, j :: 0 <= i < j < |fs| ==> fs[i].0 != fs[j].0
  }

  /** Reading a property: the value of the first pair with that key. */
  function Get(fs: Fields, k: string): (r: Option<Json>)
    ensures r.Some? <==> k in KeySet(fs)
  {
    if fs == [] then None
    else if fs[0].0 == k then Some(fs[0].1)
    else
      assert KeySet(fs) == {fs[0].0} + KeySet(fs[1..]) by {
        assert forall i :: 0 < i < |fs| ==> fs[i] == fs[1..][i - 1];
      }
      Get(fs[1..], k)
  }

  /** The value a script reads as `v[k]`; `undefined` and `null` are both `JNull`. */
  function Field(v: Json, k: string): Json
  {
    if v.JObj? && Get(v.fields, k).Some? then Get(v.fields, k).value else JNull
  }

  /** Property assignment `acc[k] = v`. */
  function Put(fs: Fields, k: string, v: Json): Fields
  {
    if fs == [] then [(k, v)]
    else if fs[0].0 == k then [(k, v)] + fs[1..]
    else [fs[0]] + Put(fs[1..], k, v)
  }

  /** `{ ...o, k: v }` on an object `o`. */
  function SetField(o: Json, k: string, v: Json): Json
    requires o.JObj?
  {
    JObj(Put(o.fields, k, v))
  }

  /** Assigning the pairs of `p`, first to last, into a fresh object. */
  function Assemble(p: Fields): Fields
  {
    if p == [] then [] else Put(Assemble(p[..|p| - 1]), p[|p| - 1].0, p[|p| - 1].1)
  }

  /** The value of the last pair of `p` with key `k`: later assignments win. */
  function LastGet(p: Fields, k: string): Option<Json>
  {
    if p == [] then None
    else if p[|p| - 1].0 == k then Some(p[|p| - 1].1)
    else LastGet(p[..|p| - 1], k)
  }

  lemma KeySetCons(fs: Fields)
    requires fs != []
    ensures KeySet(fs) == {fs[0].0} + KeySet(fs[1..])
  {
    assert forall i :: 0 < i < |fs| ==> fs[i] == fs[1..][i - 1];
  }

  lemma KeySetSnoc(fs: Fields, x: (string, Json))
    ensures KeySet(fs + [x]) == KeySet(fs) + {x.0}
  {
    var t := fs + [x];
    assert forall i :: 0 <= i < |fs| ==> t[i] == fs[i];
    assert t[|fs|] == x;
  }

  /** Keys rewritten pair by pair by `f` give the image of the key set under `f`. */
  lemma KeySetImage(fs: Fields, p: Fields, f: string -> string)
    requires |p| == |fs|
    requires forall i :: 0 <= i < |fs| ==> p[i].0 == f(fs[i].0)
    ensures KeySet(p) == set k | k in KeySet(fs) :: f(k)
  {
    forall k | k in KeySet(p) ensures k in set k | k in KeySet(fs) :: f(k) {
      var i :| 0 <= i < |p| && p[i].0 == k;
      assert fs[i].0 in KeySet(fs);
    }
    forall k | k in KeySet(fs) ensures f(k) in KeySet(p) {
      var i :| 0 <= i < |fs| && fs[i].0 == k;
      assert p[i].0 == f(k);
    }
  }

  /** What reading the assigned property and the others gives back. */
  lemma {:induction false} PutGet(fs: Fields, k: string, v: Json, k': string)
    ensures Get(Put(fs, k, v), k') == if k' == k then Some(v) else Get(fs, k')
  {
    if fs != [] && fs[0].0 != k {
      PutGet(fs[1..], k, v, k');
    }
  }

  /** Assignment adds exactly the assigned key and keeps keys distinct. */
  lemma {:induction false} PutKeys(fs: Fields, k: string, v: Json)
    ensures KeySet(Put(fs, k, v)) == KeySet(fs) + {k}
    ensures DistinctKeys(fs) ==> DistinctKeys(Put(fs, k, v))
  {
    if fs == [] {
      var one := [(k, v)];
      assert one[0].0 == k;
      assert KeySet(one) == {k};
    } else {
      KeySetCons(fs);
      var r := Put(fs, k, v);
      if fs[0].0 == k {
        assert r[1..] == fs[1..];
        KeySetCons(r);
        if DistinctKeys(fs) {
          forall i, j | 0 <= i < j < |r| ensures r[i].0 != r[j].0 {
            assert r[j] == fs[j];
            if i > 0 { assert r[i] == fs[i]; }
          }
        }
      } else {
        PutKeys(fs[1..], k, v);
        assert r[1..] == Put(fs[1..], k, v);
        KeySetCons(r);
        if DistinctKeys(fs) {
          var t := Put(fs[1..], k, v);
          assert DistinctKeys(fs[1..]) by {
            forall i, j | 0 <= i < j < |fs[1..]| ensures fs[1..][i].0 != fs[1..][j].0 {
              assert fs[1..][i] == fs[i + 1] && fs[1..][j] == fs[j + 1];
            }
          }
          assert fs[0].0 !in KeySet(fs[1..]) by {
            assert forall j :: 0 <= j < |fs[1..]| ==> fs[1..][j] == fs[j + 1];
          }
          forall i, j | 0 <= i < j < |r| ensures r[i].0 != r[j].0 {
            if i == 0 {
              assert r[j] == t[j - 1];
              assert r[j].0 in KeySet(t);
            } else {
              assert r[i] == t[i - 1] && r[j] == t[j - 1];
            }
          }
        }
      }
    }
  }

  /** Assigning a key the object does not have appends it. */
  lemma {:induction false} PutAbsent(fs: Fields, k: string, v: Json)
    requires k !in KeySet(fs)
    ensures Put(fs, k, v) == fs + [(k, v)]
  {
    if fs != [] {
      KeySetCons(fs);
      PutAbsent(fs[1..], k, v);
      assert [fs[0]] + (fs[1..] + [(k, v)]) == fs + [(k, v)];
    }
  }

  /** The object built by `Assemble` has distinct keys, namely the keys of `p`. */
  lemma {:induction false} AssembleKeys(p: Fields)
    ensures DistinctKeys(Assemble(p))
    ensures KeySet(Assemble(p)) == KeySet(p)
  {
    if p != [] {
      var n := |p| - 1;
      AssembleKeys(p[..n]);
      PutKeys(Assemble(p[..n]), p[n].0, p[n].1);
      assert p == p[..n] + [p[n]];
      KeySetSnoc(p[..n], p[n]);
    } else {
      assert KeySet(p) == {};
    }
  }

  /** Reading a property of the assembled object gives the last value assigned to it. */
  lemma {:induction false} AssembleGet(p: Fields, k: string)
    ensures Get(Assemble(p), k) == LastGet(p, k)
  {
    if p != [] {
      var n := |p| - 1;
      AssembleGet(p[..n], k);
      PutGet(Assemble(p[..n]), p[n].0, p[n].1, k);
    }
  }

  lemma DistinctPrefix(p: Fields, n: nat)
    requires DistinctKeys(p) && n <= |p|
    ensures DistinctKeys(p[..n])
  {
    assert forall i :: 0 <= i < n ==> p[..n][i] == p[i];
  }

  /** Pairs whose keys are already distinct are assembled unchanged. */
  lemma {:induction false} AssembleDistinct(p: Fields)
    requires DistinctKeys(p)
    ensures Assemble(p) == p
  {
    if p != [] {
      var n := |p| - 1;
      DistinctPrefix(p, n);
      AssembleDistinct(p[..n]);
      assert p[n].0 !in KeySet(p[..n]) by {
        assert forall j :: 0 <= j < n ==> p[..n][j] == p[j];
      }
      PutAbsent(p[..n], p[n].0, p[n].1);
      assert p[..n] + [p[n]] == p;
    }
  }

  /** Every value of the assembled object is the value of some pair of `p`. */
  lemma {:induction false} AssembleValues(p: Fields, i: nat)
    requires i < |Assemble(p)|
    ensures exists j :: 0 <= j < |p| && p[j] == Assemble(p)[i]
  {
    var n := |p| - 1;
    var a := Assemble(p[..n]);
    PutShape(a, p[n].0, p[n].1, i);
    if Assemble(p)[i] != p[n] {
      AssembleValues(p[..n], i);
      var j :| 0 <= j < n && p[..n][j] == a[i];
      assert p[j] == p[..n][j];
    }
  }

  /** Each pair of `Put(fs, k, v)` is either the assigned pair or a pair of `fs`
      at the same position. */
  lemma {:induction false} PutShape(fs: Fields, k: string, v: Json, i: nat)
    requires i < |Put(fs, k, v)|
    ensures Put(fs, k, v)[i] == (k, v) || (i < |fs| && Put(fs, k, v)[i] == fs[i])
  {
    if fs != [] && fs[0].0 != k && i > 0 {
      PutShape(fs[1..], k, v, i - 1);
    }
  }
}
