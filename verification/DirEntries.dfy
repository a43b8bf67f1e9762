/**
 What a directory means to its callers: a list of entries, looked up by name. Inserting and
 removing entries are a map update and a map removal as long as names are distinct.
 */
module DirEntries {
  import opened Platform
  import opened DirBlock

  /** The first entry with a name. */
  function Lookup(es: seq<Entry>, name: seq<nat>): Option<Entry> {
    if es == [] then None
    else if es[0].name == name then Some(es[0])
    else Lookup(es[1..], name)
  }

  /** The entries without the first one that has the name. */
  function Without(es: seq<Entry>, name: seq<nat>): seq<Entry> {
    if es == [] then []
    else if es[0].name == name then es[1..]
    else [es[0]] + Without(es[1..], name)
  }

  /** `es'` is `es` with `e` put in at one place. */
  ghost predicate AddedOne(es: seq<Entry>, es': seq<Entry>, e: Entry) {
    exists pre, post :: AddedAt(es, es', e, pre, post)
  }

  ghost predicate AddedAt(es: seq<Entry>, es': seq<Entry>, e: Entry, pre: seq<Entry>, post: seq<Entry>) {
    es == pre + post && es' == pre + [e] + post
  }

  /** No two entries share a name. */
  ghost predicate Unique(es: seq<Entry>) {
    es == [] || (Lookup(es[1..], es[0].name).None? && Unique(es[1..]))
  }

  lemma {:induction false} LookupJoin(a: seq<Entry>, b: seq<Entry>, name: seq<nat>)
    ensures Lookup(a + b, name) == if Lookup(a, name).Some? then Lookup(a, name) else Lookup(b, name)
  {
    if a == [] {
      assert a + b == b;
    } else {
      assert (a + b)[1..] == a[1..] + b;
      LookupJoin(a[1..], b, name);
    }
  }

  lemma WithoutCons(e: Entry, es: seq<Entry>, name: seq<nat>)
    ensures Without([e] + es, name) == if e.name == name then es else [e] + Without(es, name)
    ensures Lookup([e] + es, name) == if e.name == name then Some(e) else Lookup(es, name)
  {
    assert ([e] + es)[1..] == es;
  }

  lemma {:induction false} WithoutJoin(a: seq<Entry>, b: seq<Entry>, name: seq<nat>)
    ensures Without(a + b, name) == if Lookup(a, name).Some? then Without(a, name) + b else a + Without(b, name)
  {
    if a == [] {
      assert a + b == b;
    } else {
      hide *;
      var e, t := a[0], a[1..];
      assert a == [e] + t && a + b == [e] + (t + b);
      WithoutCons(e, t, name);
      WithoutCons(e, t + b, name);
      WithoutJoin(t, b, name);
      Reassociate(e, Without(t, name), b);
      Reassociate(e, t, Without(b, name));
    }
  }

  lemma Reassociate(e: Entry, s: seq<Entry>, t: seq<Entry>)
    ensures [e] + (s + t) == [e] + s + t
  {
  }

  lemma {:induction false} LookupIs(es: seq<Entry>, name: seq<nat>)
    ensures Lookup(es, name).Some? ==> Lookup(es, name).value in es && Lookup(es, name).value.name == name
    ensures Lookup(es, name).None? <==> forall e :: e in es ==> e.name != name
  {
    if es != [] {
      assert es == [es[0]] + es[1..];
      LookupIs(es[1..], name);
    }
  }

  /** With distinct names, lookup after an insertion is a map update. */
  lemma LookupAdded(es: seq<Entry>, es': seq<Entry>, e: Entry, name: seq<nat>)
    requires AddedOne(es, es', e) && Lookup(es, e.name).None?
    ensures Lookup(es', name) == if name == e.name then Some(e) else Lookup(es, name)
    ensures Unique(es) ==> Unique(es')
  {
    var pre, post :| AddedAt(es, es', e, pre, post);
    LookupPut(pre, post, e, name);
    LookupJoin(pre, post, e.name);
    if Unique(es) { UniquePut(pre, post, e); }
  }

  lemma LookupPut(pre: seq<Entry>, post: seq<Entry>, e: Entry, name: seq<nat>)
    ensures Lookup(pre + [e] + post, name) ==
      if name == e.name && Lookup(pre, name).None? then Some(e) else Lookup(pre + post, name)
  {
    LookupJoin(pre + [e], post, name);
    LookupJoin(pre, [e], name);
    LookupJoin(pre, post, name);
    LookupOne(e, name);
  }

  lemma LookupOne(e: Entry, name: seq<nat>)
    ensures Lookup([e], name) == if name == e.name then Some(e) else None
  {
  }

  lemma {:induction false} UniquePut(pre: seq<Entry>, post: seq<Entry>, e: Entry)
    requires Unique(pre + post) && Lookup(pre + post, e.name).None?
    ensures Unique(pre + [e] + post)
  {
    if pre == [] {
      assert pre + [e] + post == [e] + post && pre + post == post;
      assert ([e] + post)[1..] == post;
    } else {
      assert (pre + post)[1..] == pre[1..] + post;
      assert (pre + [e] + post)[1..] == pre[1..] + [e] + post;
      UniquePut(pre[1..], post, e);
      LookupPut(pre[1..], post, e, pre[0].name);
    }
  }

  /** With distinct names, lookup after a removal is a map removal. */
  lemma {:induction false} LookupRemoved(es: seq<Entry>, gone: seq<nat>, name: seq<nat>)
    requires Unique(es)
    ensures Unique(Without(es, gone))
    ensures Lookup(Without(es, gone), name) == if name == gone then None else Lookup(es, name)
  {
    if es != [] {
      var w := Without(es[1..], gone);
      LookupRemoved(es[1..], gone, name);
      LookupRemoved(es[1..], gone, es[0].name);
      assert ([es[0]] + w)[1..] == w;
    }
  }

  lemma WithoutMiddle(pre: seq<Entry>, es: seq<Entry>, post: seq<Entry>, name: seq<nat>)
    requires Lookup(pre, name).None? && Lookup(es, name).Some?
    ensures Without(pre + es + post, name) == pre + Without(es, name) + post
  {
    hide *;
    LookupJoin(pre, es, name);
    WithoutJoin(pre + es, post, name);
    WithoutJoin(pre, es, name);
  }

  lemma {:induction false} WithoutNone(es: seq<Entry>, name: seq<nat>)
    requires Lookup(es, name).None?
    ensures Without(es, name) == es
  {
    if es != [] {
      WithoutNone(es[1..], name);
      assert es == [es[0]] + es[1..];
    }
  }

  lemma LookupNil(name: seq<nat>)
    ensures Lookup([], name).None?
  {
  }

  lemma AddedWithin(a: seq<Entry>, es: seq<Entry>, es': seq<Entry>, z: seq<Entry>, e: Entry)
    requires AddedOne(es, es', e)
    ensures AddedOne(a + es + z, a + es' + z, e)
  {
    var pre, post :| AddedAt(es, es', e, pre, post);
    assert a + es + z == (a + pre) + (post + z);
    assert a + es' + z == (a + pre) + [e] + (post + z);
    assert AddedAt(a + es + z, a + es' + z, e, a + pre, post + z);
  }
}
