/** The loop that extends the `conversion` table with squared units: for
    every suffix u it adds u2, u^2 and u**2, each with the square of u's
    factor. */
module Conversion {

  import opened Wrappers

  /** A suffix the squared suffixes cannot collide with: it does not end
      in '2', '^' or '*'. */
  predicate PlainUnit(k: string) {
    |k| == 0 || (k[|k| - 1] != '2' && k[|k| - 1] != '^' && k[|k| - 1] != '*')
  }

  /** The suffix a squared suffix squares: k without a trailing "**2",
      "^2" or "2". */
  function Root(k: string): Option<string> {
    var n := |k|;
    if n >= 3 && k[n - 3] == '*' && k[n - 2] == '*' && k[n - 1] == '2' then Some(k[..n - 3])
    else if n >= 2 && k[n - 2] == '^' && k[n - 1] == '2' then Some(k[..n - 2])
    else if n >= 1 && k[n - 1] == '2' then Some(k[..n - 1])
    else None
  }

  /** A suffix with a root is one of the root's squared spellings. */
  lemma RootInverse(k: string)
    requires Root(k).Some?
    ensures k == Root(k).value + "2" || k == Root(k).value + "^2" || k == Root(k).value + "**2"
  {
    var n := |k|;
    if n >= 3 && k[n - 3] == '*' && k[n - 2] == '*' && k[n - 1] == '2' {
      assert k == k[..n - 3] + "**2";
    } else if n >= 2 && k[n - 2] == '^' && k[n - 1] == '2' {
      assert k == k[..n - 2] + "^2";
    } else {
      assert k == k[..n - 1] + "2";
    }
  }

  /** The three squared spellings of a plain suffix lead back to it, and
      none of them is plain. */
  lemma RootOfSquared(u: string)
    requires PlainUnit(u)
    ensures Root(u + "2") == Some(u) && Root(u + "^2") == Some(u) && Root(u + "**2") == Some(u)
    ensures !PlainUnit(u + "2") && !PlainUnit(u + "^2") && !PlainUnit(u + "**2")
  {
    var a, b, c := u + "2", u + "^2", u + "**2";
    assert a[|a| - 1] == '2' && b[|b| - 1] == '2' && c[|c| - 1] == '2';
    assert b[|b| - 2] == '^' && c[|c| - 2] == '*';
    assert c[|c| - 3] == '*';
    if |u| >= 1 {
      assert a[|a| - 2] == u[|u| - 1] && b[|b| - 3] == u[|u| - 1];
    }
    assert a[..|u|] == u && b[..|u|] == u && c[..|u|] == u;
  }

  /** `value**2` */
  function Square(x: real): real {
    x * x
  }

  /** The factor the extended table gives k: its own for a base suffix,
      the square of its root's for a squared one. */
  function Factor(base: map<string, real>, k: string): real {
    if k in base then base[k]
    else if Root(k).Some? && Root(k).value in base then Square(base[Root(k).value])
    else 0.0
  }

  /** k is a base suffix or a squared spelling of one. */
  predicate InExtended(base: map<string, real>, k: string) {
    k in base || (Root(k).Some? && Root(k).value in base)
  }

  /** The extended table: exactly the base suffixes and the squared
      spellings of the base suffixes, each with its factor. */
  ghost predicate ConversionOf(base: map<string, real>, conv: map<string, real>) {
    (forall k :: k in conv <==> InExtended(base, k)) &&
    (forall k :: k in conv ==> conv[k] == Factor(base, k))
  }

  /** In the extended table every base suffix keeps its factor and each of
      its three squared spellings has the factor squared. */
  lemma SquaredEntries(base: map<string, real>, conv: map<string, real>, u: string)
    requires ConversionOf(base, conv) && u in base
    requires forall k :: k in base ==> PlainUnit(k)
    ensures u in conv && conv[u] == base[u]
    ensures u + "2" in conv && conv[u + "2"] == Square(base[u])
    ensures u + "^2" in conv && conv[u + "^2"] == Square(base[u])
    ensures u + "**2" in conv && conv[u + "**2"] == Square(base[u])
  {
    RootOfSquared(u);
    assert u + "2" !in base && u + "^2" !in base && u + "**2" !in base;
    assert InExtended(base, u) && InExtended(base, u + "2") && InExtended(base, u + "^2") && InExtended(base, u + "**2");
  }

  /** `conversion.keys()`: the suffixes of the table, in an order the
      model leaves open. */
  method Keys(m: map<string, real>) returns (keys: seq<string>)
    ensures forall k :: k in m <==> k in keys
  {
    keys := [];
    var rest := m.Keys;
    while rest != {}
      invariant rest <= m.Keys
      invariant forall k :: k in m <==> k in keys || k in rest
      decreases |rest|
    {
      var k :| k in rest;
      keys := keys + [k];
      rest := rest - {k};
    }
  }

  /** k is a base suffix or a squared spelling of one of the given keys. */
  predicate InPrefix(base: map<string, real>, done: seq<string>, k: string) {
    k in base || (Root(k).Some? && Root(k).value in done)
  }

  /** The loop `for unit in conversion.keys()` that adds the squared
      suffixes, over the keys in the order given. */
  method AddSquares(base: map<string, real>, keys: seq<string>) returns (conv: map<string, real>)
    requires forall k :: k in base <==> k in keys
    requires forall k :: k in base ==> PlainUnit(k)
    ensures ConversionOf(base, conv)
  {
    conv := base;
    var i := 0;
    while i < |keys|
      invariant 0 <= i <= |keys|
      invariant forall k :: k in conv <==> InPrefix(base, keys[..i], k)
      invariant forall k :: k in conv ==> conv[k] == Factor(base, k)
    {
      var unit := keys[i];
      var value := conv[unit];
      RootOfSquared(unit);
      assert unit + "2" !in base && unit + "^2" !in base && unit + "**2" !in base;
      assert Factor(base, unit + "2") == Square(value);
      assert Factor(base, unit + "^2") == Square(value);
      assert Factor(base, unit + "**2") == Square(value);
      conv := conv[unit + "2" := Square(value)][unit + "^2" := Square(value)][unit + "**2" := Square(value)];
      assert keys[..i + 1] == keys[..i] + [unit];
      forall k | InPrefix(base, keys[..i + 1], k) && !InPrefix(base, keys[..i], k)
        ensures k == unit + "2" || k == unit + "^2" || k == unit + "**2"
      {
        RootInverse(k);
      }
      i := i + 1;
    }
    assert keys[..i] == keys;
    assert forall k :: InPrefix(base, keys, k) == InExtended(base, k);
  }

  /** Squaring keeps every factor positive. */
  lemma SquaresPositive(base: map<string, real>, conv: map<string, real>)
    requires ConversionOf(base, conv)
    requires forall k :: k in base ==> base[k] > 0.0
    ensures forall k :: k in conv ==> conv[k] > 0.0
  {
    forall k | k in conv
      ensures conv[k] > 0.0
    {
      assert conv[k] == Factor(base, k);
      if k in base {
      } else {
        assert InExtended(base, k);
        var r := Root(k).value;
        assert r in base;
        var x := base[r];
        assert x > 0.0;
        calc {
          conv[k];
        ==
          Square(x);
        ==
          x * x;
        >
          0.0 * x;
        ==
          0.0;
        }
      }
    }
  }
}
