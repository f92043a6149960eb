/** `clientloop.c`: the queue of callbacks that wait for replies to global requests. */
module GlobalConfirm {
  import opened Basics

  /** A callback with its argument; `null` marks a registration that runs nothing. */
  datatype Callback = Callback(id: nat, ctx: nat, isNull: bool)

  /** `struct global_confirm`: a callback and how many replies it still waits for. */
  datatype Entry = Entry(cb: Callback, refCount: int)

  function Repeat(cb: Callback, n: nat): seq<Callback> {
    seq(n, _ => cb)
  }

  /** The plain queue the counted one stands for. */
  function Flatten(q: seq<Entry>): seq<Callback> {
    if q == [] then [] else Flatten(q[..|q| - 1]) + Repeat(q[|q| - 1].cb, Count(q[|q| - 1]))
  }

  function Count(e: Entry): nat {
    if e.refCount < 0 then 0 else e.refCount
  }

  lemma {:induction false} FlattenConcat(a: seq<Entry>, b: seq<Entry>)
    ensures Flatten(a + b) == Flatten(a) + Flatten(b)
  {
    hide Repeat;
    if b == [] {
      assert a + b == a;
    } else {
      var n := |b| - 1;
      FlattenConcat(a, b[..n]);
      assert (a + b)[..|a| + n] == a + b[..n];
      assert (a + b)[|a| + n] == b[n];
    }
  }

  lemma OneMore(q: seq<Entry>, e: Entry)
    requires q != [] && e.cb == q[|q| - 1].cb && e.refCount == q[|q| - 1].refCount + 1 > 0
    ensures Flatten(q[|q| - 1 := e]) == Flatten(q) + [e.cb]
  {
    RepeatMore(e.cb, e.refCount - 1);
    assert q[|q| - 1 := e][..|q| - 1] == q[..|q| - 1];
  }

  lemma FlattenOne(e: Entry)
    ensures Flatten([e]) == Repeat(e.cb, Count(e))
  {
    assert [e][..0] == [];
  }

  /** The head of the queue is the head of the plain queue. */
  lemma FlattenHead(q: seq<Entry>)
    requires q != []
    ensures Flatten(q) == Repeat(q[0].cb, Count(q[0])) + Flatten(q[1..])
  {
    hide Repeat;
    FlattenConcat([q[0]], q[1..]);
    FlattenOne(q[0]);
    assert [q[0]] + q[1..] == q;
  }

  lemma RepeatMore(cb: Callback, n: nat)
    ensures Repeat(cb, n + 1) == Repeat(cb, n) + [cb]
    ensures Repeat(cb, n + 1) == [cb] + Repeat(cb, n)
  {
  }

  /** Every entry waits for some reply, and neighbours differ: the queue is the run-length form of its contents. */
  ghost predicate Canonical(q: seq<Entry>) {
    && (forall i :: 0 <= i < |q| ==> 0 < q[i].refCount < INT_MAX)
    && (forall i :: 0 < i < |q| ==> q[i - 1].cb != q[i].cb)
  }

  /** The run-length form is determined by the plain queue. */
  lemma {:induction false} CanonicalUnique(p: seq<Entry>, q: seq<Entry>)
    requires Canonical(p) && Canonical(q) && Flatten(p) == Flatten(q)
    ensures p == q
  {
    if p == [] || q == [] {
      NonEmpty(p);
      NonEmpty(q);
    } else {
      FlattenHead(p);
      FlattenHead(q);
      SameHead(p, q);
      assert Flatten(p)[p[0].refCount..] == Flatten(p[1..]);
      assert Flatten(q)[q[0].refCount..] == Flatten(q[1..]);
      CanonicalUnique(p[1..], q[1..]);
      assert p == [p[0]] + p[1..] && q == [q[0]] + q[1..];
    }
  }

  lemma NonEmpty(q: seq<Entry>)
    requires Canonical(q)
    ensures Flatten(q) == [] <==> q == []
  {
  }

  lemma SameHead(p: seq<Entry>, q: seq<Entry>)
    requires p != [] && q != [] && Canonical(p) && Canonical(q) && Flatten(p) == Flatten(q)
    ensures p[0] == q[0]
  {
    FirstRun(p);
    FirstRun(q);
    var f := Flatten(p);
    assert f[0] == p[0].cb && f[0] == q[0].cb;
  }

  lemma FirstRun(q: seq<Entry>)
    requires q != [] && Canonical(q)
    ensures var f := Flatten(q); var n := q[0].refCount;
      n <= |f| && (forall i :: 0 <= i < n ==> f[i] == q[0].cb) && (n < |f| ==> f[n] != q[0].cb)
  {
    FlattenHead(q);
    var n := q[0].refCount;
    if |q| > 1 {
      FlattenHead(q[1..]);
      assert q[0].cb != q[1].cb;
      assert Flatten(q)[n] == Flatten(q[1..])[0] == q[1].cb;
    }
  }

  class Queue {
    var entries: seq<Entry>
    var dead: bool
    ghost var registered: seq<Callback>
    ghost var answered: seq<Callback>

    /** What was registered is what was answered followed by what still waits. */
    ghost predicate Valid()
      reads this
    {
      Canonical(entries) && (!dead ==> registered == answered + Flatten(entries))
    }

    constructor ()
      ensures Valid() && !dead && registered == [] && answered == []
    {
      entries, dead, registered, answered := [], false, [], [];
    }

    /** `client_register_global_confirm`. */
    method Register(cb: Callback)
      requires Valid() && !dead
      modifies this
      ensures Valid() && answered == old(answered)
      ensures registered == old(registered) + [cb]
      ensures !dead ==> Flatten(entries) == old(Flatten(entries)) + [cb]
      ensures dead <==> old(entries) != [] && old(entries)[|old(entries)| - 1] == Entry(cb, INT_MAX - 1)
      ensures |old(entries)| <= |entries|
      ensures forall i :: 0 <= i < |old(entries)| ==> entries[i].cb == old(entries)[i].cb
    {
      hide Repeat, Flatten;
      registered := registered + [cb];
      var n := |entries|;
      if n > 0 && entries[n - 1].cb == cb {
        var count := entries[n - 1].refCount + 1;
        if count >= INT_MAX {
          dead := true;
          return;
        }
        OneMore(entries, Entry(cb, count));
        entries := entries[n - 1 := Entry(cb, count)];
        return;
      }
      FlattenConcat(entries, [Entry(cb, 1)]);
      FlattenOne(Entry(cb, 1));
      OneOnly(cb);
      entries := entries + [Entry(cb, 1)];
    }

    /** Registrations a callback makes while it runs. */
    method RegisterAll(cbs: seq<Callback>)
      requires Valid() && !dead
      modifies this
      ensures Valid() && answered == old(answered)
      ensures !dead ==> registered == old(registered) + cbs && Flatten(entries) == old(Flatten(entries)) + cbs
      ensures |old(entries)| <= |entries|
      ensures old(entries) != [] ==> entries[0].cb == old(entries)[0].cb
    {
      for i := 0 to |cbs|
        invariant Valid() && !dead && answered == old(answered)
        invariant registered == old(registered) + cbs[..i]
        invariant Flatten(entries) == old(Flatten(entries)) + cbs[..i]
        invariant |old(entries)| <= |entries|
        invariant old(entries) != [] ==> entries[0].cb == old(entries)[0].cb
      {
        Register(cbs[i]);
        if dead {
          return;
        }
        assert cbs[..i + 1] == cbs[..i] + [cbs[i]];
      }
      assert cbs[..|cbs|] == cbs;
    }

    /** `client_global_request_reply`, where the callback itself may register `during`. */
    method Reply(during: seq<Callback>) returns (ran: Option<Callback>)
      requires Valid() && !dead
      modifies this
      ensures Valid()
      ensures old(entries) == [] ==> ran == None && entries == [] && answered == old(answered) && !dead
      ensures old(entries) != [] && !dead ==>
        var head := old(Flatten(entries))[0];
        var added := if head.isNull then [] else during;
        && ran == (if head.isNull then None else Some(head))
        && answered == old(answered) + [head]
        && registered == old(registered) + added
        && Flatten(entries) == (old(Flatten(entries)) + added)[1..]
    {
      hide Repeat, Flatten;
      ran := None;
      if entries == [] {
        return;
      }
      FirstRun(entries);
      var gc := entries[0];
      if !gc.cb.isNull {
        ran := Some(gc.cb);
        RegisterAll(during);
        if dead {
          return;
        }
      }
      Decrement();
    }

    method Decrement()
      requires Valid() && !dead && entries != []
      modifies this
      ensures Valid() && !dead && registered == old(registered)
      ensures Flatten(old(entries)) != [] && answered == old(answered) + [Flatten(old(entries))[0]]
      ensures Flatten(entries) == Flatten(old(entries))[1..] && Flatten(old(entries))[0] == old(entries)[0].cb
    {
      hide Repeat, Flatten;
      ghost var was := entries;
      var e := entries[0];
      FlattenHead(entries);
      RepeatMore(e.cb, e.refCount - 1);
      answered := answered + [e.cb];
      if e.refCount - 1 <= 0 {
        NoneLeft(e.cb);
        entries := entries[1..];
      } else {
        entries := entries[0 := Entry(e.cb, e.refCount - 1)];
        assert entries[1..] == was[1..];
        FlattenHead(entries);
      }
      Shift(old(answered), e.cb, Flatten(entries));
      assert Flatten(was) == [e.cb] + Flatten(entries);
    }

    /** The k-th reply to be answered runs the k-th callback that was registered. */
    lemma InOrder(k: nat)
      requires Valid() && !dead && k < |answered|
      ensures k < |registered| && answered[k] == registered[k]
    {
    }
  }

  lemma OneOnly(cb: Callback)
    ensures Repeat(cb, 1) == [cb]
  {
  }

  lemma NoneLeft(cb: Callback)
    ensures Repeat(cb, 0) == []
  {
  }

  lemma Shift(a: seq<Callback>, cb: Callback, rest: seq<Callback>)
    ensures a + ([cb] + rest) == (a + [cb]) + rest
  {
  }
}
