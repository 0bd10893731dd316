/** The bounded registry that makes a context authoritative by identity. */
module ContextRegistry {
  import opened Prelude
  import opened LaunchContext

  const CAPACITY := 4096

  type Issued = map<nat, Context>

  predicate Expired(c: Context, now: int) { c.expiresAt <= now }

  function Unexpired(issued: Issued, now: int): Issued {
    map id | id in issued && !Expired(issued[id], now) :: issued[id]
  }

  /** What is left to register into: everything while there is room, the unexpired contexts once there is none. */
  function Kept(issued: Issued, now: int): Issued {
    if |issued| >= CAPACITY then Unexpired(issued, now) else issued
  }

  /** Registration of one context under a fresh identity. */
  function Registered(issued: Issued, id: nat, c: Context, now: int): Issued {
    var kept := Kept(issued, now);
    if |kept| >= CAPACITY then kept else kept[id := c]
  }

  class Registry {
    var issued: Issued
    /** Stands for `id()` of the next context: no live object has it yet. */
    var nextId: nat

    ghost predicate Valid()
      reads this
    {
      |issued| <= CAPACITY && forall id :: id in issued ==> id < nextId
    }

    constructor ()
      ensures Valid() && issued == map[]
    {
      issued, nextId := map[], 0;
    }

    /** The sweep over a full registry. */
    method DropExpired(now: int)
      modifies `issued
      ensures issued == Unexpired(old(issued), now)
    {
      var pending := issued.Keys;
      while pending != {}
        invariant pending <= old(issued).Keys
        invariant issued.Keys == set i | i in old(issued) && (i in pending || !Expired(old(issued)[i], now))
        invariant forall i :: i in issued ==> issued[i] == old(issued)[i]
        decreases pending
      {
        var i :| i in pending;
        if Expired(issued[i], now) {
          issued := issued - {i};
        }
        pending := pending - {i};
      }
    }

    /** `_register_issued_context`; `None` where the registry is full of unexpired contexts. */
    method Register(c: Context, now: int) returns (id: Option<nat>)
      requires Valid()
      modifies this
      ensures Valid()
      ensures issued == Registered(old(issued), old(nextId), c, now)
      ensures id == if |Kept(old(issued), now)| >= CAPACITY then None else Some(old(nextId))
      ensures id.Some? ==> id.value !in old(issued) && id.value in issued && issued[id.value] == c
      ensures id.None? ==> issued == old(issued) && forall i :: i in issued ==> !Expired(issued[i], now)
    {
      if |issued| >= CAPACITY {
        DropExpired(now);
        if |issued| >= CAPACITY {
          SubmapSize(issued, old(issued));
          SameSize(issued, old(issued));
          return None;
        }
      }
      ghost var kept := issued;
      AddedSize(kept, nextId, c);
      issued := issued[nextId := c];
      id := Some(nextId);
      nextId := nextId + 1;
    }
  }

  lemma AddedSize(m: Issued, id: nat, c: Context)
    ensures |m[id := c]| <= |m| + 1
  {
    assert m[id := c].Keys == m.Keys + {id};
    assert |m| == |m.Keys| && |m[id := c]| == |m.Keys + {id}|;
  }

  lemma SubmapSize(m: Issued, n: Issued)
    requires m.Keys <= n.Keys
    ensures |m| <= |n|
  {
    SubsetSize(m.Keys, n.Keys);
    assert |m| == |m.Keys| && |n| == |n.Keys|;
  }

  lemma {:induction false} SubsetSize<T>(a: set<T>, b: set<T>)
    requires a <= b
    ensures |a| <= |b|
  {
    if a != {} {
      var x :| x in a;
      SubsetSize(a - {x}, b - {x});
    }
  }

  lemma EqualSize<T>(a: set<T>, b: set<T>)
    requires a <= b && |a| >= |b|
    ensures a == b
  {
    if x :| x in b && x !in a {
      SubsetSize(a, b - {x});
    }
  }

  lemma SameSize(m: Issued, n: Issued)
    requires m.Keys <= n.Keys && |m| >= |n|
    requires forall i :: i in m ==> m[i] == n[i]
    ensures m == n
  {
    assert |m| == |m.Keys| && |n| == |n.Keys|;
    EqualSize(m.Keys, n.Keys);
  }

  // ----- Runs -----

  /** A context to register and the clock at the attempt. */
  datatype Attempt = Attempt(c: Context, now: int)

  function Run(issued: Issued, nextId: nat, attempts: seq<Attempt>): Issued
    decreases |attempts|
  {
    if attempts == [] then issued
    else Run(Registered(issued, nextId, attempts[0].c, attempts[0].now), nextId + 1, attempts[1..])
  }

  /** Whatever is registered afterwards, a context stays authoritative for as long as it has not expired. */
  lemma {:induction false} AuthoritativeUntilExpiry(issued: Issued, nextId: nat, attempts: seq<Attempt>, id: nat)
    requires id in issued && id < nextId
    requires forall a :: a in attempts ==> !Expired(issued[id], a.now)
    ensures id in Run(issued, nextId, attempts) && Run(issued, nextId, attempts)[id] == issued[id]
    decreases |attempts|
  {
    if attempts != [] {
      var next := Registered(issued, nextId, attempts[0].c, attempts[0].now);
      assert attempts[0] in attempts;
      assert id in next && next[id] == issued[id];
      AuthoritativeUntilExpiry(next, nextId + 1, attempts[1..], id);
    }
  }

  /** And the registry never outgrows its bound. */
  lemma {:induction false} NeverOutgrown(issued: Issued, nextId: nat, attempts: seq<Attempt>)
    requires |issued| <= CAPACITY
    ensures |Run(issued, nextId, attempts)| <= CAPACITY
    decreases |attempts|
  {
    if attempts != [] {
      var kept := Kept(issued, attempts[0].now);
      SubmapSize(kept, issued);
      var next := Registered(issued, nextId, attempts[0].c, attempts[0].now);
      AddedSize(kept, nextId, attempts[0].c);
      NeverOutgrown(next, nextId + 1, attempts[1..]);
    }
  }

  /**
   * Registration succeeds exactly with fewer than 4096 contexts, or with fewer than 4096 of
   * them still unexpired; and only then does an expired context go.
   */
  lemma RegistersExactly(issued: Issued, id: nat, c: Context, now: int)
    requires id !in issued
    ensures var next := Registered(issued, id, c, now); var live := set i | i in issued && now < issued[i].expiresAt;
      && (id in next <==> |issued| < 4096 || |live| < 4096)
      && (id in next ==> next[id] == c)
      && next.Keys - {id} == (if |issued| < 4096 then issued.Keys else live)
      && forall i :: i in next && i != id ==> next[i] == issued[i]
  {
    var live := set i | i in issued && now < issued[i].expiresAt;
    LiveKept(issued, now, live);
    hide Unexpired;
    var kept := Kept(issued, now);
    if |kept| >= CAPACITY {
      assert kept.Keys - {id} == kept.Keys;
    } else {
      AddedOne(kept, id, c);
    }
  }

  lemma LiveKept(issued: Issued, now: int, live: set<nat>)
    requires live == set i | i in issued && now < issued[i].expiresAt
    ensures var kept := Kept(issued, now);
      && kept.Keys == (if |issued| < 4096 then issued.Keys else live) && |kept| == |kept.Keys|
      && forall i :: i in kept ==> i in issued && kept[i] == issued[i]
  {
    assert Unexpired(issued, now).Keys == live;
  }

  lemma AddedOne(m: Issued, id: nat, c: Context)
    requires id !in m
    ensures m[id := c].Keys - {id} == m.Keys
  {
  }
}
