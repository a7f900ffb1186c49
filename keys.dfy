/** The two key-rewriting rules applied at the storage boundary.

    `SnakeKey` is the regular expression replacement `/[A-Z]/g` with `_`
    followed by the lower-case letter; `CamelKey` is the replacement
    `/_([a-z])/g` with the upper-case letter.  Both are written as a left to
    right scan, which is exactly how a global replacement walks its input:
    a match consumes its characters and the scan resumes after them. */
module KeyCodec {

  predicate IsUpper(c: char) { 'A' <= c <= 'Z' }

  predicate IsLower(c: char) { 'a' <= c <= 'z' }

  function Lower(c: char): (d: char)
    requires IsUpper(c)
    ensures IsLower(d)
  {
    (c as int + 32) as char
  }

  function Upper(c: char): (d: char)
    requires IsLower(c)
    ensures IsUpper(d)
  {
    (c as int - 32) as char
  }

  /** `camelToSnake` on one key. */
  function SnakeKey(k: string): string
  {
    if k == [] then []
    else (if IsUpper(k[0]) then ['_', Lower(k[0])] else [k[0]]) + SnakeKey(k[1..])
  }

  /** `snakeToCamel` on one key. */
  function CamelKey(k: string): string
  {
    if |k| >= 2 && k[0] == '_' && IsLower(k[1]) then [Upper(k[1])] + CamelKey(k[2..])
    else if k == [] then []
    else [k[0]] + CamelKey(k[1..])
  }

  /** No ASCII upper-case letter: what `SnakeKey` leaves in place. */
  predicate NoUpper(k: string)
  {
    forall i :: 0 <= i < |k| ==> !IsUpper(k[i])
  }

  /** No `_` immediately followed by a-z: what `CamelKey` leaves in place. */
  predicate NoHump(k: string)
  {
    forall i :: 0 < i < |k| ==> !(k[i - 1] == '_' && IsLower(k[i]))
  }

  function CountUpper(k: string): nat
  {
    if k == [] then 0 else (if IsUpper(k[0]) then 1 else 0) + CountUpper(k[1..])
  }

  /** The output of `SnakeKey` contains no A-Z. */
  lemma {:induction false} SnakeKeyNoUpper(k: string)
    ensures NoUpper(SnakeKey(k))
  {
    if k != [] {
      SnakeKeyNoUpper(k[1..]);
    }
  }

  /** Each upper-case letter grows the key by one character. */
  lemma {:induction false} SnakeKeyLength(k: string)
    ensures |SnakeKey(k)| == |k| + CountUpper(k)
  {
    if k != [] {
      SnakeKeyLength(k[1..]);
    }
  }

  /** `SnakeKey` rewrites letter by letter, so it distributes over concatenation. */
  lemma {:induction false} SnakeKeyAppend(a: string, b: string)
    ensures SnakeKey(a + b) == SnakeKey(a) + SnakeKey(b)
  {
    if a == [] {
      assert a + b == b;
    } else {
      assert (a + b)[0] == a[0];
      assert (a + b)[1..] == a[1..] + b;
      SnakeKeyAppend(a[1..], b);
    }
  }

  /** A key is left unchanged by `SnakeKey` exactly when it has no A-Z. */
  lemma {:induction false} SnakeKeyFixpoint(k: string)
    ensures SnakeKey(k) == k <==> NoUpper(k)
  {
    if k != [] {
      SnakeKeyFixpoint(k[1..]);
      if SnakeKey(k) == k {
        SnakeKeyNoUpper(k);
      }
      if NoUpper(k) {
        assert NoUpper(k[1..]) by {
          forall i | 0 <= i < |k[1..]| ensures !IsUpper(k[1..][i]) {
            assert k[1..][i] == k[i + 1];
          }
        }
      }
    }
  }

  lemma SnakeKeyIdempotent(k: string)
    ensures SnakeKey(SnakeKey(k)) == SnakeKey(k)
  {
    SnakeKeyNoUpper(k);
    SnakeKeyFixpoint(SnakeKey(k));
  }

  /** The first character of `CamelKey(k)` is either the upper-cased letter
      of a leading `_x` or the first character of `k`. */
  lemma CamelKeyHead(k: string)
    requires k != []
    ensures CamelKey(k) != []
    ensures |k| >= 2 && k[0] == '_' && IsLower(k[1]) ==> CamelKey(k)[0] == Upper(k[1])
    ensures !(|k| >= 2 && k[0] == '_' && IsLower(k[1])) ==> CamelKey(k)[0] == k[0]
  {
  }

  /** Dropping the first character of a key without humps leaves one without humps. */
  lemma NoHumpTail(k: string)
    requires k != [] && NoHump(k)
    ensures NoHump(k[1..])
  {
    forall i | 0 < i < |k[1..]| ensures !(k[1..][i - 1] == '_' && IsLower(k[1..][i])) {
      assert k[1..][i - 1] == k[i] && k[1..][i] == k[i + 1];
    }
  }

  /** Prefixing a character that is not `_` keeps a key free of humps. */
  lemma NoHumpCons(c: char, s: string)
    requires NoHump(s)
    requires c != '_' || s == [] || !IsLower(s[0])
    ensures NoHump([c] + s)
  {
    var t := [c] + s;
    forall i | 0 < i < |t| ensures !(t[i - 1] == '_' && IsLower(t[i])) {
      if i > 1 {
        assert t[i - 1] == s[i - 2] && t[i] == s[i - 1];
      }
    }
  }

  /** The output of `CamelKey` contains no `_` followed by a-z. */
  lemma {:induction false} CamelKeyNoHump(k: string)
    ensures NoHump(CamelKey(k))
  {
    if |k| >= 2 && k[0] == '_' && IsLower(k[1]) {
      CamelKeyNoHump(k[2..]);
      NoHumpCons(Upper(k[1]), CamelKey(k[2..]));
    } else if k != [] {
      CamelKeyNoHump(k[1..]);
      if k[1..] != [] {
        CamelKeyHead(k[1..]);
        if k[0] == '_' {
          assert !IsLower(k[1]);
          assert !IsLower(CamelKey(k[1..])[0]);
        }
      }
      NoHumpCons(k[0], CamelKey(k[1..]));
    }
  }

  /** `CamelKey` never lengthens a key, and keeps its length exactly when
      the key has no humps. */
  lemma {:induction false} CamelKeyLength(k: string)
    ensures |CamelKey(k)| <= |k|
    ensures |CamelKey(k)| == |k| <==> NoHump(k)
  {
    if |k| >= 2 && k[0] == '_' && IsLower(k[1]) {
      CamelKeyLength(k[2..]);
    } else if k != [] {
      CamelKeyLength(k[1..]);
      if NoHump(k) {
        NoHumpTail(k);
      }
      if NoHump(k[1..]) {
        NoHumpCons(k[0], k[1..]);
        assert [k[0]] + k[1..] == k;
      }
    }
  }

  /** A key is left unchanged by `CamelKey` exactly when it has no humps. */
  lemma CamelKeyFixpoint(k: string)
    ensures CamelKey(k) == k <==> NoHump(k)
  {
    CamelKeyLength(k);
    if CamelKey(k) == k {
      CamelKeyNoHump(k);
    } else if NoHump(k) {
      CamelKeyUnchanged(k);
    }
  }

  lemma {:induction false} CamelKeyUnchanged(k: string)
    requires NoHump(k)
    ensures CamelKey(k) == k
  {
    if k != [] {
      NoHumpTail(k);
      CamelKeyUnchanged(k[1..]);
      if |k| >= 2 {
        assert !(k[0] == '_' && IsLower(k[1]));
      }
    }
  }

  lemma CamelKeyIdempotent(k: string)
    ensures CamelKey(CamelKey(k)) == CamelKey(k)
  {
    CamelKeyNoHump(k);
    CamelKeyFixpoint(CamelKey(k));
  }

  /** Round trip through the snake_case form: a key without humps comes back. */
  lemma {:induction false} CamelOfSnake(k: string)
    requires NoHump(k)
    ensures CamelKey(SnakeKey(k)) == k
  {
    if k != [] {
      NoHumpTail(k);
      CamelOfSnake(k[1..]);
      if IsUpper(k[0]) {
        CamelOfCapital(k[0], SnakeKey(k[1..]));
      } else {
        CamelOfPlain(k);
      }
    }
  }

  /** A capital written as `_x` turns back into the capital. */
  lemma CamelOfCapital(c: char, rest: string)
    requires IsUpper(c)
    ensures CamelKey(['_', Lower(c)] + rest) == [c] + CamelKey(rest)
  {
    var s := ['_', Lower(c)] + rest;
    assert s[0] == '_' && s[1] == Lower(c) && s[2..] == rest;
    assert Upper(Lower(c)) == c;
  }

  /** A character other than a capital stays in front of the snake key of the
      rest, and `CamelKey` leaves it there when no hump starts at it. */
  lemma CamelOfPlain(k: string)
    requires k != [] && !IsUpper(k[0]) && NoHump(k)
    ensures SnakeKey(k) == [k[0]] + SnakeKey(k[1..])
    ensures CamelKey([k[0]] + SnakeKey(k[1..])) == [k[0]] + CamelKey(SnakeKey(k[1..]))
  {
    var rest := SnakeKey(k[1..]);
    var s := [k[0]] + rest;
    assert s[1..] == rest;
    if k[0] == '_' && |k| >= 2 {
      assert !IsLower(k[1]);
      assert rest[0] == (if IsUpper(k[1]) then '_' else k[1]);
    }
  }

  /** Round trip through the camelCase form: a key without A-Z comes back. */
  lemma {:induction false} SnakeOfCamel(k: string)
    requires NoUpper(k)
    ensures SnakeKey(CamelKey(k)) == k
  {
    if |k| >= 2 && k[0] == '_' && IsLower(k[1]) {
      assert NoUpper(k[2..]) by {
        forall i | 0 <= i < |k[2..]| ensures !IsUpper(k[2..][i]) {
          assert k[2..][i] == k[i + 2];
        }
      }
      SnakeOfCamel(k[2..]);
      var c := [Upper(k[1])] + CamelKey(k[2..]);
      assert c[0] == Upper(k[1]) && c[1..] == CamelKey(k[2..]);
      assert Lower(Upper(k[1])) == k[1];
      assert SnakeKey(c) == ['_', k[1]] + k[2..];
      assert ['_', k[1]] + k[2..] == k;
    } else if k != [] {
      assert NoUpper(k[1..]) by {
        forall i | 0 <= i < |k[1..]| ensures !IsUpper(k[1..][i]) {
          assert k[1..][i] == k[i + 1];
        }
      }
      SnakeOfCamel(k[1..]);
      var c := [k[0]] + CamelKey(k[1..]);
      assert c[0] == k[0] && c[1..] == CamelKey(k[1..]);
      assert SnakeKey(c) == [k[0]] + k[1..];
      assert [k[0]] + k[1..] == k;
    }
  }

  /** `SnakeKey` is injective on keys without humps. */
  lemma SnakeKeyInjective(a: string, b: string)
    requires NoHump(a) && NoHump(b)
    ensures SnakeKey(a) == SnakeKey(b) ==> a == b
  {
    CamelOfSnake(a);
    CamelOfSnake(b);
  }

  /** `CamelKey` is injective on keys without A-Z. */
  lemma CamelKeyInjective(a: string, b: string)
    requires NoUpper(a) && NoUpper(b)
    ensures CamelKey(a) == CamelKey(b) ==> a == b
  {
    SnakeOfCamel(a);
    SnakeOfCamel(b);
  }

  /** Two different camelCase keys can collide in snake_case: `aB` and `a_b`. */
  lemma SnakeKeyCollision()
    ensures SnakeKey("aB") == SnakeKey("a_b") == "a_b"
  {
    assert SnakeKey("aB") == "a" + SnakeKey("B");
    assert SnakeKey("B") == "_b" + SnakeKey("");
    assert SnakeKey("a_b") == "a" + SnakeKey("_b");
    assert SnakeKey("_b") == "_" + SnakeKey("b");
    assert SnakeKey("b") == "b" + SnakeKey("");
  }

  /** The snake key `a_b` reads back in camelCase as `aB`, the other key of the collision. */
  lemma CamelKeyOfCollision()
    ensures CamelKey("a_b") == "aB"
  {
    assert CamelKey("a_b") == "a" + CamelKey("_b");
    assert CamelKey("_b") == "B" + CamelKey("");
  }

  /** `SnakeKey` on a key whose first capital letter follows the lower-case run `a`. */
  lemma SnakeKeyAtCapital(a: string, c: char, b: string)
    requires NoUpper(a) && IsUpper(c)
    ensures SnakeKey(a + [c] + b) == a + ['_', Lower(c)] + SnakeKey(b)
  {
    SnakeKeyAppend(a + [c], b);
    SnakeKeyAppend(a, [c]);
    SnakeKeyFixpoint(a);
    assert SnakeKey([c]) == ['_', Lower(c)] + SnakeKey([]);
  }

  /** A key with one capital letter `u` between the lower-case runs `a` and `b`. */
  lemma OneCapital(k: string, a: string, u: char, b: string, n: string)
    requires NoUpper(a) && IsUpper(u) && NoUpper(b)
    requires k == a + [u] + b && n == a + ['_', Lower(u)] + b
    ensures SnakeKey(k) == n
  {
    SnakeKeyAtCapital(a, u, b);
    SnakeKeyFixpoint(b);
  }

  /** A key with two capital letters `u` and `w` between lower-case runs. */
  lemma TwoCapitals(k: string, a: string, u: char, b: string, w: char, c: string, n: string)
    requires NoUpper(a) && IsUpper(u) && NoUpper(b) && IsUpper(w) && NoUpper(c)
    requires k == a + [u] + (b + [w] + c) && n == a + ['_', Lower(u)] + (b + ['_', Lower(w)] + c)
    ensures SnakeKey(k) == n
  {
    SnakeKeyAtCapital(a, u, b + [w] + c);
    OneCapital(b + [w] + c, b, w, c, b + ['_', Lower(w)] + c);
  }

  /** A key the `camelToSnake` rule maps to `n` comes back from `n` by the
      `snakeToCamel` rule when it holds no `_` followed by a-z. */
  lemma KeyRoundTrip(k: string, n: string)
    requires NoHump(k) && SnakeKey(k) == n
    ensures CamelKey(n) == k
  {
    CamelOfSnake(k);
  }

  /** A key without `_` holds no `_` followed by a-z. */
  lemma NoUnderscore(k: string)
    requires '_' !in k
    ensures NoHump(k)
  {
    forall i | 0 <= i < |k| ensures k[i] != '_' {
      assert k[i] in k;
    }
  }

  lemma PoNumberSnake()
    ensures SnakeKey("poNumber") == "po_number"
  {
    OneCapital("poNumber", "po", 'N', "umber", "po_number");
  }

  /** The special key `poNumber` is mapped by the regular rule to `po_number`
      as well, so the exception in `camelToSnake` concerns its value only. */
  lemma PoNumberKeys()
    ensures SnakeKey("poNumber") == "po_number"
    ensures CamelKey("po_number") == "poNumber"
  {
    PoNumberSnake();
    NoUnderscore("poNumber");
    KeyRoundTrip("poNumber", "po_number");
  }
}
