/** Copying extensions from a request into a certificate. */
module Extensions {

  datatype Extension = Extension(oid: string, value: string)

  datatype CopyType = CopyNone | CopyAdd | CopyAll

  function Oids(es: seq<Extension>): set<string> {
    set i | 0 <= i < |es| :: es[i].oid
  }

  ghost function Without(es: seq<Extension>, oids: set<string>): seq<Extension> {
    if es == [] then []
    else if es[0].oid in oids then Without(es[1..], oids)
    else [es[0]] + Without(es[1..], oids)
  }

  /** The first request extension of every OID that is not among `taken`. */
  ghost function FirstOfEach(req: seq<Extension>, taken: set<string>): seq<Extension> {
    if req == [] then []
    else if req[0].oid in taken then FirstOfEach(req[1..], taken)
    else [req[0]] + FirstOfEach(req[1..], taken + {req[0].oid})
  }

  /** The last request extension of every OID, in the order of these last ones. */
  ghost function LastOfEach(req: seq<Extension>): seq<Extension> {
    if req == [] then []
    else if req[0].oid in Oids(req[1..]) then LastOfEach(req[1..])
    else [req[0]] + LastOfEach(req[1..])
  }

  ghost function Copied(kind: CopyType, es: seq<Extension>, req: seq<Extension>): seq<Extension> {
    match kind
    case CopyNone => es
    case CopyAdd => es + FirstOfEach(req, Oids(es))
    case CopyAll => Without(es, Oids(req)) + LastOfEach(req)
  }

  lemma OidsOfSum(a: seq<Extension>, b: seq<Extension>)
    ensures Oids(a + b) == Oids(a) + Oids(b)
  {
    var s := a + b;
    assert forall i :: 0 <= i < |a| ==> s[i] == a[i];
    assert forall i :: 0 <= i < |b| ==> s[|a| + i] == b[i];
    forall o | o in Oids(a) + Oids(b) ensures o in Oids(s) {
      if o in Oids(a) {
        var i :| 0 <= i < |a| && a[i].oid == o;
        assert s[i].oid == o;
      } else {
        var i :| 0 <= i < |b| && b[i].oid == o;
        assert s[|a| + i].oid == o;
      }
    }
  }

  lemma OidsOfOne(e: Extension)
    ensures Oids([e]) == {e.oid}
  {
    assert [e][0] == e;
  }

  lemma {:induction false} WithoutSum(a: seq<Extension>, b: seq<Extension>, oids: set<string>)
    ensures Without(a + b, oids) == Without(a, oids) + Without(b, oids)
  {
    if a == [] {
      assert a + b == b;
    } else {
      WithoutSum(a[1..], b, oids);
      assert (a + b)[1..] == a[1..] + b;
    }
  }

  lemma {:induction false} WithoutTwice(es: seq<Extension>, a: set<string>, b: set<string>)
    ensures Without(Without(es, a), b) == Without(es, a + b)
  {
    if es == [] {
    } else {
      WithoutTwice(es[1..], a, b);
      if es[0].oid !in a {
        WithoutSum([es[0]], Without(es[1..], a), b);
        assert [es[0]][1..] == [];
      }
    }
  }

  lemma {:induction false} WithoutAbsent(es: seq<Extension>, oids: set<string>)
    requires Oids(es) !! oids
    ensures Without(es, oids) == es
  {
    if es == [] {
    } else {
      OidsOfSum([es[0]], es[1..]);
      OidsOfOne(es[0]);
      assert [es[0]] + es[1..] == es;
      WithoutAbsent(es[1..], oids);
    }
  }

  lemma {:induction false} WithoutAll(es: seq<Extension>, oids: set<string>)
    requires Oids(es) <= oids
    ensures Without(es, oids) == []
  {
    if es == [] {
    } else {
      OidsOfSum([es[0]], es[1..]);
      OidsOfOne(es[0]);
      assert [es[0]] + es[1..] == es;
      WithoutAll(es[1..], oids);
    }
  }

  lemma {:induction false} OidsOfWithout(es: seq<Extension>, oids: set<string>)
    ensures Oids(Without(es, oids)) == Oids(es) - oids
  {
    if es == [] {
    } else {
      OidsOfWithout(es[1..], oids);
      OidsOfSum([es[0]], es[1..]);
      OidsOfOne(es[0]);
      assert [es[0]] + es[1..] == es;
      if es[0].oid !in oids { OidsOfSum([es[0]], Without(es[1..], oids)); }
    }
  }

  lemma {:induction false} OidsOfLast(req: seq<Extension>)
    ensures Oids(LastOfEach(req)) == Oids(req)
  {
    if req == [] {
    } else {
      OidsOfLast(req[1..]);
      OidsOfSum([req[0]], req[1..]);
      OidsOfOne(req[0]);
      assert [req[0]] + req[1..] == req;
      if req[0].oid !in Oids(req[1..]) { OidsOfSum([req[0]], LastOfEach(req[1..])); }
    }
  }

  /** One more request extension displaces an earlier one of its OID. */
  lemma {:induction false} LastOfMore(req: seq<Extension>, e: Extension)
    ensures LastOfEach(req + [e]) == Without(LastOfEach(req), {e.oid}) + [e]
  {
    if req == [] {
      assert [] + [e] == [e] && [e][1..] == [];
      assert LastOfEach([e]) == [e];
    } else {
      var rest := req[1..];
      assert (req + [e])[1..] == rest + [e];
      LastOfMore(rest, e);
      OidsOfSum(rest, [e]);
      OidsOfOne(e);
      if req[0].oid !in Oids(rest) {
        WithoutSum([req[0]], LastOfEach(rest), {e.oid});
        assert Without([req[0]], {e.oid}) == if req[0].oid == e.oid then [] else [req[0]] by {
          assert [req[0]][1..] == [];
        }
      }
    }
  }

  lemma {:induction false} FirstOfMore(req: seq<Extension>, e: Extension, taken: set<string>)
    ensures FirstOfEach(req + [e], taken) ==
      FirstOfEach(req, taken) + if e.oid in taken + Oids(FirstOfEach(req, taken)) then [] else [e]
    decreases |req|
  {
    if req == [] {
      assert [] + [e] == [e] && [e][1..] == [];
      assert Oids([]) == {};
    } else {
      assert (req + [e])[1..] == req[1..] + [e];
      var more := if req[0].oid in taken then taken else taken + {req[0].oid};
      FirstOfMore(req[1..], e, more);
      if req[0].oid !in taken {
        OidsOfSum([req[0]], FirstOfEach(req[1..], more));
        OidsOfOne(req[0]);
        assert taken + Oids(FirstOfEach(req, taken)) == more + Oids(FirstOfEach(req[1..], more));
      }
    }
  }

  /** Copying everything twice is copying it once. */
  lemma CopyAllIsIdempotent(es: seq<Extension>, req: seq<Extension>)
    ensures Copied(CopyAll, Copied(CopyAll, es, req), req) == Copied(CopyAll, es, req)
  {
    var kept, last := Without(es, Oids(req)), LastOfEach(req);
    OidsOfWithout(es, Oids(req));
    OidsOfLast(req);
    WithoutSum(kept, last, Oids(req));
    WithoutAbsent(kept, Oids(req));
    WithoutAll(last, Oids(req));
    assert kept + [] == kept;
  }

  class Certificate {
    var extensions: seq<Extension>

    constructor (es: seq<Extension>)
      ensures extensions == es
    {
      extensions := es;
    }

    /** `X509_get_ext_by_OBJ` from the start. */
    method Find(oid: string) returns (idx: int)
      ensures -1 <= idx < |extensions|
      ensures idx >= 0 ==> extensions[idx].oid == oid && oid in Oids(extensions)
      ensures idx == -1 ==> oid !in Oids(extensions)
    {
      idx := 0;
      while idx < |extensions|
        invariant 0 <= idx <= |extensions| && forall i :: 0 <= i < idx ==> extensions[i].oid != oid
      {
        if extensions[idx].oid == oid { return; }
        idx := idx + 1;
      }
      return -1;
    }

    /** The do-while loop that deletes every extension of one type, the first of which is at `at`. */
    method DeleteAll(oid: string, at: nat)
      requires at < |extensions| && extensions[at].oid == oid
      modifies this
      ensures extensions == Without(old(extensions), {oid})
    {
      var idx := at as int;
      while idx != -1
        invariant -1 <= idx < |extensions| && (idx >= 0 ==> extensions[idx].oid == oid)
        invariant idx == -1 ==> oid !in Oids(extensions)
        invariant Without(extensions, {oid}) == Without(old(extensions), {oid})
        decreases |extensions|
      {
        ghost var was := extensions;
        var head, tail := extensions[..idx], extensions[idx + 1..];
        assert was == head + [was[idx]] + tail;
        WithoutSum(head + [was[idx]], tail, {oid});
        WithoutSum(head, [was[idx]], {oid});
        OidsOfOne(was[idx]);
        WithoutAll([was[idx]], {oid});
        WithoutSum(head, tail, {oid});
        extensions := head + tail;
        idx := Find(oid);
      }
      WithoutAbsent(extensions, {oid});
    }

    /** `copy_extensions`. */
    method CopyFrom(req: seq<Extension>, kind: CopyType)
      modifies this
      ensures extensions == Copied(kind, old(extensions), req)
    {
      if kind == CopyNone { return; }
      ghost var start := extensions;
      var i := 0;
      assert Without(start, {}) == start by { WithoutAbsent(start, {}); }
      assert start + [] == start && Oids([]) == {};
      while i < |req|
        invariant i <= |req| && extensions == Copied(kind, start, req[..i])
      {
        var ext := req[i];
        ghost var was := extensions;
        assert req[..i + 1] == req[..i] + [ext];
        CopyStep(kind, start, req[..i], ext);
        var idx := Find(ext.oid);
        if idx != -1 {
          if kind == CopyAdd {
            i := i + 1;
            continue;
          }
          DeleteAll(ext.oid, idx);
        } else {
          WithoutAbsent(was, {ext.oid});
        }
        extensions := extensions + [ext];
        i := i + 1;
      }
      assert req[..i] == req;
    }
  }

  /** Without request extensions nothing changes, and no extension is copied unless that is asked for. */
  lemma CopyNothing(kind: CopyType, es: seq<Extension>, req: seq<Extension>)
    ensures Copied(kind, es, []) == es && Copied(CopyNone, es, req) == es
  {
    WithoutAbsent(es, Oids([]));
    assert es + [] == es;
  }

  /** How the meaning changes with one more request extension. */
  lemma CopyStep(kind: CopyType, es: seq<Extension>, req: seq<Extension>, e: Extension)
    ensures var was, now := Copied(kind, es, req), Copied(kind, es, req + [e]);
      match kind
      case CopyNone => now == was
      case CopyAdd => now == if e.oid in Oids(was) then was else was + [e]
      case CopyAll => now == Without(was, {e.oid}) + [e]
  {
    match kind
    case CopyNone =>
    case CopyAdd =>
      FirstOfMore(req, e, Oids(es));
      OidsOfSum(es, FirstOfEach(req, Oids(es)));
      assert es + (FirstOfEach(req, Oids(es)) + []) == es + FirstOfEach(req, Oids(es));
    case CopyAll =>
      LastOfMore(req, e);
      OidsOfSum(req, [e]);
      OidsOfOne(e);
      WithoutTwice(es, Oids(req), {e.oid});
      WithoutSum(Without(es, Oids(req)), LastOfEach(req), {e.oid});
  }
}
