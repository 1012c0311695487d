/** Registry paths: slash-separated strings and the element lists they stand for. */
module Paths {

  const ADDRESS := "address"

  import opened Wrappers

  datatype PathError = InvalidElement

  /** The length of the first element of a path. */
  function Span(p: string): (n: nat)
    ensures n <= |p| && '/' !in p[..n] && (n < |p| ==> p[n] == '/')
  {
    if p == "" || p[0] == '/' then 0 else 1 + Span(p[1..])
  }

  /** The maximal runs of characters other than '/' (`strings.FieldsFunc`). */
  function Fields(p: string): (es: seq<string>)
    ensures forall e :: e in es ==> e != "" && '/' !in e
    decreases |p|
  {
    if p == "" then []
    else if p[0] == '/' then Fields(p[1..])
    else [p[..Span(p)]] + Fields(p[Span(p)..])
  }

  predicate Allowed(e: string) {
    e != "." && e != ".."
  }

  function SplitRegistryPath(p: string): Result<seq<string>, PathError> {
    var es := Fields(p);
    if exists e :: e in es && !Allowed(e) then Err(InvalidElement) else Ok(es)
  }

  function JoinRegistryPath(es: seq<string>): string {
    if es == [] then "" else if |es| == 1 then es[0] else es[0] + "/" + JoinRegistryPath(es[1..])
  }

  predicate ValidElement(e: string) {
    e != "" && '/' !in e && Allowed(e)
  }

  /** The element lists that a path can stand for. */
  predicate Valid(es: seq<string>) {
    forall e :: e in es ==> ValidElement(e)
  }

  // ---- Splitting ----

  lemma {:induction false} SpanOfElement(e: string, rest: string)
    requires '/' !in e && (rest != "" ==> rest[0] == '/')
    ensures Span(e + rest) == |e|
  {
    if e == "" {
      assert e + rest == rest;
    } else {
      assert (e + rest)[0] == e[0] && (e + rest)[1..] == e[1..] + rest;
      SpanOfElement(e[1..], rest);
    }
  }

  lemma FieldsOfElement(e: string, rest: string)
    requires e != "" && '/' !in e && (rest != "" ==> rest[0] == '/')
    ensures Fields(e + rest) == [e] + Fields(rest)
  {
    SpanOfElement(e, rest);
    assert (e + rest)[..|e|] == e && (e + rest)[|e|..] == rest;
    assert (e + rest)[0] == e[0];
  }

  /** Splitting goes through a slash. All that is promised about leading, trailing and repeated
      slashes follows from this law with an empty `a` or `b`. */
  lemma {:induction false} FieldsThroughSlash(a: string, b: string)
    ensures Fields(a + "/" + b) == Fields(a) + Fields(b)
    decreases |a|
  {
    if a == "" {
      assert a + "/" + b == "/" + b && ("/" + b)[1..] == b;
    } else if a[0] == '/' {
      assert (a + "/" + b)[0] == '/' && (a + "/" + b)[1..] == a[1..] + "/" + b;
      FieldsThroughSlash(a[1..], b);
    } else {
      var n := Span(a);
      var e, rest := a[..n], a[n..];
      assert a == e + rest && a + "/" + b == e + (rest + "/" + b);
      FieldsOfElement(e, rest);
      FieldsOfElement(e, rest + "/" + b);
      FieldsThroughSlash(rest, b);
    }
  }

  lemma SlashesAreIgnored(a: string, b: string)
    ensures Fields("/" + a) == Fields(a) && Fields(a + "/") == Fields(a)
    ensures Fields(a + "//" + b) == Fields(a + "/" + b)
  {
    FieldsThroughSlash("", a);
    assert "" + "/" + a == "/" + a;
    FieldsThroughSlash(a, "");
    assert a + "/" + "" == a + "/";
    FieldsThroughSlash(a + "/", b);
    assert a + "/" + "/" + b == a + "//" + b;
    FieldsThroughSlash(a, b);
  }

  // ---- Joining, then splitting ----

  lemma {:induction false} FieldsOfJoin(es: seq<string>)
    requires forall e :: e in es ==> e != "" && '/' !in e
    ensures Fields(JoinRegistryPath(es)) == es
    decreases |es|
  {
    if es == [] {
    } else {
      assert es[0] in es;
      FieldsOfElement(es[0], "");
      assert es[0] + "" == es[0];
      if |es| == 1 {
        assert es == [es[0]];
      } else {
        FieldsThroughSlash(es[0], JoinRegistryPath(es[1..]));
        assert forall e :: e in es[1..] ==> e in es;
        FieldsOfJoin(es[1..]);
      }
    }
  }

  /** Every valid element list is recovered from its path. */
  lemma SplitOfJoin(es: seq<string>)
    requires Valid(es)
    ensures SplitRegistryPath(JoinRegistryPath(es)) == Ok(es)
  {
    FieldsOfJoin(es);
  }

  lemma JoinIsInjective(es: seq<string>, es': seq<string>)
    requires Valid(es) && Valid(es') && JoinRegistryPath(es) == JoinRegistryPath(es')
    ensures es == es'
  {
    FieldsOfJoin(es);
    FieldsOfJoin(es');
  }

  /** A path is accepted exactly when it stands for a valid element list, and then its canonical
      form stands for the same list and is its own canonical form. */
  lemma SplitIsCanonical(p: string)
    ensures SplitRegistryPath(p).Ok? <==> Valid(Fields(p))
    ensures SplitRegistryPath(p) == if "." in Fields(p) || ".." in Fields(p) then Err(InvalidElement) else Ok(Fields(p))
    ensures SplitRegistryPath(p).Ok? ==>
              var es := SplitRegistryPath(p).value;
              && Valid(es)
              && SplitRegistryPath(JoinRegistryPath(es)) == Ok(es)
              && JoinRegistryPath(SplitRegistryPath(JoinRegistryPath(es)).value) == JoinRegistryPath(es)
  {
    assert !Allowed(".") && !Allowed("..");
    if SplitRegistryPath(p).Ok? {
      SplitOfJoin(Fields(p));
    }
  }

  // ---- The prefix test of GetValues ----

  /** The test that GetValues applies to every key. */
  predicate AtOrBeneath(key: string, prefix: string) {
    prefix == "" || (prefix <= key && (|key| == |prefix| || key[|prefix|] == '/'))
  }

  lemma {:induction false} JoinAppend(es: seq<string>, fs: seq<string>)
    requires es != [] && fs != []
    ensures JoinRegistryPath(es + fs) == JoinRegistryPath(es) + "/" + JoinRegistryPath(fs)
    decreases |es|
  {
    assert (es + fs)[0] == es[0] && (es + fs)[1..] == es[1..] + fs;
    if |es| == 1 {
      assert es[1..] + fs == fs;
    } else {
      JoinAppend(es[1..], fs);
      assert es[0] + "/" + (JoinRegistryPath(es[1..]) + "/" + JoinRegistryPath(fs)) ==
             JoinRegistryPath(es) + "/" + JoinRegistryPath(fs);
    }
  }

  lemma JoinIsEmpty(es: seq<string>)
    requires Valid(es)
    ensures JoinRegistryPath(es) == "" <==> es == []
  {
    FieldsOfJoin(es);
  }

  lemma ElementPrefixPassesTest(es: seq<string>, ps: seq<string>)
    requires ps != [] && ps <= es
    ensures AtOrBeneath(JoinRegistryPath(es), JoinRegistryPath(ps))
  {
    hide JoinRegistryPath;
    if ps != es {
      var fs := es[|ps|..];
      assert es == ps + fs;
      JoinAppend(ps, fs);
    }
  }

  lemma TestFindsElementPrefix(es: seq<string>, ps: seq<string>)
    requires Valid(es) && Valid(ps) && JoinRegistryPath(ps) != ""
    requires AtOrBeneath(JoinRegistryPath(es), JoinRegistryPath(ps))
    ensures ps <= es
  {
    hide JoinRegistryPath, Fields;
    var key, prefix := JoinRegistryPath(es), JoinRegistryPath(ps);
    FieldsOfJoin(es);
    FieldsOfJoin(ps);
    if |key| == |prefix| {
      assert key == prefix;
    } else {
      var rest := key[|prefix| + 1..];
      assert key == prefix + "/" + rest;
      FieldsThroughSlash(prefix, rest);
    }
  }

  /** On canonical paths the string test holds exactly when the one element list is a prefix of
      the other: "ab/c" is not beneath "a". */
  lemma PrefixTestIsElementPrefix(es: seq<string>, ps: seq<string>)
    requires Valid(es) && Valid(ps)
    ensures AtOrBeneath(JoinRegistryPath(es), JoinRegistryPath(ps)) <==> ps <= es
  {
    JoinIsEmpty(ps);
    hide JoinRegistryPath;
    if ps != [] {
      if ps <= es {
        ElementPrefixPassesTest(es, ps);
      }
      if AtOrBeneath(JoinRegistryPath(es), JoinRegistryPath(ps)) {
        TestFindsElementPrefix(es, ps);
      }
    }
  }
}
