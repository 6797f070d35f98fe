/** Diagnostics: a stable code, its message arguments and a location. */
module Diagnostics {
  import opened Syntax

  datatype Code =
    | PERSIST_101 | PERSIST_102
    | PERSIST_201 | PERSIST_202
    | PERSIST_301 | PERSIST_302 | PERSIST_303 | PERSIST_304 | PERSIST_305 | PERSIST_306 | PERSIST_307
    | PERSIST_401 | PERSIST_402 | PERSIST_403 | PERSIST_420 | PERSIST_421 | PERSIST_422
    | PERSIST_501 | PERSIST_502 | PERSIST_503

  datatype Diagnostic = Diagnostic(code: Code, args: seq<string>, loc: Loc)

  /** How many diagnostics in `ds` carry code `c`. */
  function CountCode(ds: seq<Diagnostic>, c: Code): (n: nat)
    ensures n <= |ds|
  {
    if ds == [] then 0
    else CountCode(ds[..|ds| - 1], c) + (if ds[|ds| - 1].code == c then 1 else 0)
  }

  lemma {:induction false} CountCodeAppend(a: seq<Diagnostic>, b: seq<Diagnostic>, c: Code)
    ensures CountCode(a + b, c) == CountCode(a, c) + CountCode(b, c)
    decreases |b|
  {
    if b != [] {
      assert (a + b)[..|a + b| - 1] == a + b[..|b| - 1];
      CountCodeAppend(a, b[..|b| - 1], c);
    } else {
      assert a + b == a;
    }
  }

  lemma CountSingle(d: Diagnostic, c: Code)
    ensures CountCode([d], c) == if d.code == c then 1 else 0
  {
    assert [d][..0] == [];
  }

  /** No diagnostic carries `c` exactly when none is counted. */
  lemma {:induction false} CountCodeZero(ds: seq<Diagnostic>, c: Code)
    ensures CountCode(ds, c) == 0 <==> forall d :: d in ds ==> d.code != c
    decreases |ds|
  {
    if ds != [] {
      var prefix, last := ds[..|ds| - 1], ds[|ds| - 1];
      CountCodeZero(prefix, c);
      assert ds == prefix + [last];
      assert forall d :: d in ds <==> d in prefix || d == last;
    }
  }

  /** Every diagnostic of `ds` carries one of the codes `cs`. */
  predicate CodesWithin(ds: seq<Diagnostic>, cs: set<Code>) {
    forall d :: d in ds ==> d.code in cs
  }

  /** A code outside those a list carries is not counted in it. */
  lemma CountOutside(ds: seq<Diagnostic>, cs: set<Code>, c: Code)
    requires CodesWithin(ds, cs) && c !in cs
    ensures CountCode(ds, c) == 0
  {
    CountCodeZero(ds, c);
  }

  lemma CodesWithinAppend(a: seq<Diagnostic>, b: seq<Diagnostic>, cs: set<Code>)
    requires CodesWithin(a, cs) && CodesWithin(b, cs)
    ensures CodesWithin(a + b, cs)
  {
  }
}
