/** A failover rotation over a pool of opaque API handles.
    The container keeps the handles currently in rotation (the active list)
    and the handles set aside after a failure (the awaiting list). Once the
    active list is used up, the awaiting handles become active again. */
module ApiContainers {

  /** Outcome of asking the container for its current handle: the handle,
      or the index error raised when there is no handle at all. */
  datatype Fetch<T> = Api(api: T) | IndexError

  /** The two lists of a container, as a value. */
  datatype Pool<T> = Pool(active: seq<T>, awaiting: seq<T>)

  /** Every handle the pool holds, counted with multiplicity. */
  function Total<T>(p: Pool<T>): multiset<T>
  {
    multiset(p.active) + multiset(p.awaiting)
  }

  // ---------------------------------------------------------------------
  // Removing the first equal element of a list (a list's `remove`)
  // ---------------------------------------------------------------------

  /** The position of the first element of `s` equal to `x`. */
  function FirstIndex<T(==)>(s: seq<T>, x: T): (i: nat)
    requires x in s
    ensures i < |s| && s[i] == x
    ensures x !in s[..i]
  {
    if s[0] == x then 0
    else
      assert x in s[1..];
      var j := FirstIndex(s[1..], x);
      assert s[..j + 1] == [s[0]] + s[1..][..j];
      j + 1
  }

  /** `s` without its first element equal to `x`; `s` itself when there is none. */
  function RemoveFirst<T(==)>(s: seq<T>, x: T): (r: seq<T>)
    ensures x in s ==> |r| == |s| - 1
    ensures x !in s ==> r == s
  {
    if s == [] then []
    else if s[0] == x then s[1..]
    else [s[0]] + RemoveFirst(s[1..], x)
  }

  /** Removing the first occurrence takes exactly one copy of `x` out of
      the list's contents, and none when there is no occurrence. */
  lemma {:induction false} RemoveFirstMultiset<T>(s: seq<T>, x: T)
    ensures multiset(RemoveFirst(s, x)) == multiset(s) - multiset{x}
  {
    if s != [] {
      assert s == [s[0]] + s[1..];
      if s[0] != x {
        RemoveFirstMultiset(s[1..], x);
      }
    }
  }

  /** Only the first occurrence is removed, and every other element keeps
      its relative order. */
  lemma {:induction false} RemoveFirstAt<T>(s: seq<T>, x: T)
    requires x in s
    ensures RemoveFirst(s, x) == s[..FirstIndex(s, x)] + s[FirstIndex(s, x) + 1..]
  {
    if s[0] != x {
      var t := s[1..];
      RemoveFirstAt(t, x);
      var j := FirstIndex(t, x);
      assert RemoveFirst(s, x) == [s[0]] + (t[..j] + t[j + 1..]);
      SplitAfterHead(s, j);
    }
  }

  /** Taking out position `j + 1` of `s`, seen from its tail `s[1..]`. */
  lemma SplitAfterHead<T>(s: seq<T>, j: nat)
    requires j + 1 < |s|
    ensures [s[0]] + (s[1..][..j] + s[1..][j + 1..]) == s[..j + 1] + s[j + 2..]
  {
    assert s[..j + 1] == [s[0]] + s[1..][..j];
    assert s[1..][j + 1..] == s[j + 2..];
  }

  // ---------------------------------------------------------------------
  // The container's operations on values
  // ---------------------------------------------------------------------

  /** The lists after `get_api`: an empty active list is refilled with the
      whole awaiting list, which is then emptied. */
  function Refill<T>(p: Pool<T>): (q: Pool<T>)
    ensures Total(q) == Total(p)
    ensures q.active + q.awaiting == p.active + p.awaiting
    ensures q.active == [] <==> p.active == [] && p.awaiting == []
  {
    if p.active == [] then Pool(p.awaiting, []) else p
  }

  /** What `get_api` returns: the first handle of the active list followed
      by the awaiting list, or the index error when both are empty. */
  function Current<T>(p: Pool<T>): (r: Fetch<T>)
    ensures r.IndexError? <==> p.active == [] && p.awaiting == []
    ensures r.Api? ==> r.api == (p.active + p.awaiting)[0]
  {
    var q := Refill(p);
    if q.active == [] then IndexError else Api(q.active[0])
  }

  /** The lists after `to_awaiting(h)`: `h` is appended to the awaiting list
      and its first occurrence, if any, leaves the active list. */
  function Demote<T(==)>(p: Pool<T>, h: T): (q: Pool<T>)
    ensures q.awaiting == p.awaiting + [h]
    ensures h in p.active ==> |q.active| == |p.active| - 1
    ensures h !in p.active ==> q.active == p.active
  {
    Pool(if h in p.active then RemoveFirst(p.active, h) else p.active, p.awaiting + [h])
  }

  /** `to_awaiting(h)` keeps every handle of the pool when `h` was active,
      and adds one copy of `h` when it was not. */
  lemma DemoteConserves<T>(p: Pool<T>, h: T)
    ensures h in p.active ==> Total(Demote(p, h)) == Total(p)
    ensures h !in p.active ==> Total(Demote(p, h)) == Total(p) + multiset{h}
  {
    RemoveFirstMultiset(p.active, h);
  }

  /** The active list after `to_awaiting(h)` keeps every element but the
      first occurrence of `h`, in order. */
  lemma DemoteRemovesFirst<T>(p: Pool<T>, h: T)
    requires h in p.active
    ensures var i := FirstIndex(p.active, h);
      Demote(p, h).active == p.active[..i] + p.active[i + 1..]
  {
    RemoveFirstAt(p.active, h);
  }

  /** A handle listed twice as active loses one copy to `to_awaiting`, so
      equal handles can then be both active and awaiting. */
  lemma DemoteDuplicate<T>(x: T, w: seq<T>)
    ensures Demote(Pool([x, x], w), x) == Pool([x], w + [x])
  {
    assert [x, x][1..] == [x];
  }

  /** A second `get_api` right after a first one returns the same handle
      and changes nothing. */
  lemma {:induction false} GetApiIdempotent<T>(p: Pool<T>)
    ensures Refill(Refill(p)) == Refill(p)
    ensures Current(Refill(p)) == Current(p)
  {
    if p.active == [] {
      assert Refill(p) == Pool(p.awaiting, []);
    }
  }

  // ---------------------------------------------------------------------
  // The rotation step: demote the failing handle, then fetch a new one
  // ---------------------------------------------------------------------

  datatype Rotated<T> = Rotated(pool: Pool<T>, api: T)

  /** One failover step. It never meets the index error, because the
      demoted handle is in the awaiting list by the time `get_api` runs; the
      new handle is the head of the new active list. */
  function RotateStep<T(==)>(p: Pool<T>, h: T): (r: Rotated<T>)
    ensures r.pool.active != [] && r.pool.active[0] == r.api
    ensures r.api == (Demote(p, h).active + p.awaiting + [h])[0]
  {
    var d := Demote(p, h);
    var f := Current(d);
    Rotated(Refill(d), f.api)
  }

  /** A rotation step conserves the pool when the failing handle was
      active, and adds one copy of it otherwise. */
  lemma RotateStepConserves<T>(p: Pool<T>, h: T)
    ensures h in p.active ==> Total(RotateStep(p, h).pool) == Total(p)
    ensures h !in p.active ==> Total(RotateStep(p, h).pool) == Total(p) + multiset{h}
  {
    DemoteConserves(p, h);
  }

  /** The handle a rotation step hands out is that of `get_api` on the lists
      `to_awaiting` leaves behind, and it is never an error. */
  lemma RotateStepFetches<T>(p: Pool<T>, h: T)
    ensures Current(Demote(p, h)) == Api(RotateStep(p, h).api)
    ensures Refill(Demote(p, h)) == RotateStep(p, h).pool
  {
  }

  /** When the failing handle is the only active one, the step refills the
      active list with the awaiting handles followed by it, and hands out the
      oldest awaiting handle; with nothing awaiting, the same handle again. */
  lemma {:induction false} RotateLastActive<T>(p: Pool<T>, cur: T)
    requires p.active == [cur]
    ensures RotateStep(p, cur).pool == Pool(p.awaiting + [cur], [])
    ensures RotateStep(p, cur).api == if p.awaiting == [] then cur else p.awaiting[0]
  {
    assert RemoveFirst(p.active, cur) == [];
    assert Demote(p, cur) == Pool([], p.awaiting + [cur]);
  }

  /** With a duplicated handle, the failing handle can come straight back
      while another one is awaiting: over `[x, y, x]`, two failures leave
      `[x]` active and `[x, y]` awaiting, and the third hands out `x`. */
  lemma RepeatWhileAwaiting<T>(x: T, y: T)
    requires x != y
    ensures Rotations(Pool([x, y, x], []), x, 2).pool == Pool([x], [x, y])
    ensures Rotations(Pool([x, y, x], []), x, 2).handles == [x, y, x]
    ensures RotateStep(Pool([x], [x, y]), x).api == x
  {
    RepeatSecondFailure(x, y);
    RotateLastActive(Pool([x], [x, y]), x);
  }

  /** The second failure over `[x, y, x]` demotes `y`, leaving only the
      second `x` active. */
  lemma RepeatSecondFailure<T>(x: T, y: T)
    ensures Rotations(Pool([x, y, x], []), x, 2) == Trace(Pool([x], [x, y]), [x, y, x])
  {
    RepeatFirstFailure(x, y);
    RotateHead([y, x], [x]);
    assert [y, x][1..] == [x] && [x] + [y] == [x, y];
  }

  /** The first failure over `[x, y, x]` demotes the leading `x`. */
  lemma RepeatFirstFailure<T>(x: T, y: T)
    ensures Rotations(Pool([x, y, x], []), x, 1) == Trace(Pool([y, x], [x]), [x, y])
  {
    RotateHead([x, y, x], []);
    assert [x, y, x][1..] == [y, x];
  }

  /** The failure of the head of a longer active list moves it to the end
      of the awaiting list and hands out the next active handle. */
  lemma RotateHead<T>(a: seq<T>, w: seq<T>)
    requires |a| >= 2
    ensures RotateStep(Pool(a, w), a[0]) == Rotated(Pool(a[1..], w + [a[0]]), a[1])
  {
    DemoteHead(a, w);
  }

  /** The handles used by successive attempts and the lists after the last
      rotation. */
  datatype Trace<T> = Trace(pool: Pool<T>, handles: seq<T>)

  /** `k` rotation steps starting from handle `h`; `handles[j]` is the handle
      in use after `j` failures. */
  function Rotations<T(==)>(p: Pool<T>, h: T, k: nat): (t: Trace<T>)
    ensures |t.handles| == k + 1 && t.handles[0] == h
    ensures k > 0 ==> t.pool.active != [] && t.pool.active[0] == t.handles[k]
  {
    if k == 0 then Trace(p, [h])
    else
      var t := Rotations(p, h, k - 1);
      var s := RotateStep(t.pool, t.handles[k - 1]);
      Trace(s.pool, t.handles + [s.api])
  }

  /** After the first rotation, each failing handle is the head of the
      active list, so no further rotation gains or loses a handle. */
  lemma {:induction false} RotationsConserve<T>(p: Pool<T>, h: T, k: nat)
    requires k >= 1
    ensures Total(Rotations(p, h, k).pool) == Total(Rotations(p, h, 1).pool)
  {
    if k > 1 {
      RotationsConserve(p, h, k - 1);
      var t := Rotations(p, h, k - 1);
      assert t.handles[k - 1] in t.pool.active;
      RotateStepConserves(t.pool, t.handles[k - 1]);
    }
  }

  /** One step of the round-robin: with the handles before position `m`
      awaiting and those from `m` on active, the failure of `a[m]` moves on
      to the next position, wrapping around through the refill. */
  lemma RoundRobinStep<T>(a: seq<T>, m: nat)
    requires m < |a|
    ensures var m' := if m + 1 == |a| then 0 else m + 1;
      RotateStep(Pool(a[m..], a[..m]), a[m]) == Rotated(Pool(a[m'..], a[..m']), a[m'])
  {
    assert RemoveFirst(a[m..], a[m]) == a[m + 1..];
    assert a[..m] + [a[m]] == a[..m + 1];
    var d := Demote(Pool(a[m..], a[..m]), a[m]);
    assert d == Pool(a[m + 1..], a[..m + 1]);
    if m + 1 == |a| {
      assert a[..m + 1] == a;
      assert Refill(d) == Pool(a, []);
    } else {
      assert Refill(d) == d;
      assert Current(d) == Api(a[m + 1]);
    }
  }

  lemma MulAtLeast(a: int, n: int)
    requires a >= 1 && n > 0
    ensures a * n >= n
  {
    assert a * n == (a - 1) * n + n;
    assert (a - 1) * n >= 0;
  }

  /** The remainder of Euclidean division is the only `r` in `[0, n)` with
      `k == q * n + r`. */
  lemma ModUnique(k: int, n: int, q: int, r: int)
    requires n > 0 && 0 <= r < n && k == q * n + r
    ensures k % n == r
  {
    var q', r' := k / n, k % n;
    assert k == q' * n + r';
    assert (q - q') * n == r' - r by {
      assert (q - q') * n == q * n - q' * n;
    }
    if q > q' {
      MulAtLeast(q - q', n);
    } else if q < q' {
      MulAtLeast(q' - q, n);
    }
  }

  /** Counting positions modulo `n`: the position after `(k - 1) % n`
      is `k % n`. */
  lemma NextPosition(k: nat, n: nat)
    requires k > 0 && n > 0
    ensures (if (k - 1) % n + 1 == n then 0 else (k - 1) % n + 1) == k % n
  {
    var q, m := (k - 1) / n, (k - 1) % n;
    assert k - 1 == q * n + m;
    if m + 1 == n {
      ModUnique(k, n, q + 1, 0);
    } else {
      ModUnique(k, n, q, m + 1);
    }
  }

  /** The state of a fresh container over `a`, started on `a[0]`, after
      `k` failures: the handle in use is `a[k % |a|]`, every earlier handle
      was `a[j % |a|]`, the handles before position `k % |a|` are awaiting
      and those from it on are active. */
  ghost predicate RoundRobinAfter<T>(a: seq<T>, k: nat)
    requires a != []
  {
    var t := Rotations(Pool(a, []), a[0], k);
    t.pool == Pool(a[k % |a|..], a[..k % |a|]) &&
    forall j :: 0 <= j <= k ==> t.handles[j] == a[j % |a|]
  }

  /** Starting from a fresh container over `a` and its first handle, the
      rotation is round-robin. */
  lemma {:induction false} RoundRobin<T>(a: seq<T>, k: nat)
    requires a != []
    ensures RoundRobinAfter(a, k)
    decreases k, 1
  {
    if k > 0 {
      RoundRobinNext(a, k);
    } else {
      RoundRobinStart(a);
    }
  }

  /** Before any failure the container is fresh and the first handle is in
      use. */
  lemma RoundRobinStart<T>(a: seq<T>)
    requires a != []
    ensures RoundRobinAfter(a, 0)
  {
    ModUnique(0, |a|, 0, 0);
    assert a[0..] == a && a[..0] == [];
  }

  /** The inductive step of `RoundRobin`: the state after `k - 1` failures
      and one more rotation step. */
  lemma {:induction false} RoundRobinNext<T>(a: seq<T>, k: nat)
    requires a != [] && k > 0
    ensures RoundRobinAfter(a, k)
    decreases k, 0
  {
    RoundRobin(a, k - 1);
    var n := |a|;
    var t := Rotations(Pool(a, []), a[0], k - 1);
    var m := (k - 1) % n;
    assert t.pool == Pool(a[m..], a[..m]) && t.handles[k - 1] == a[m];
    RoundRobinStep(a, m);
    NextPosition(k, n);
    RoundRobinHandles(a, k);
  }

  /** The handles of the first `k` attempts are those of `k - 1` rotation
      steps. */
  lemma RotationsPrefix<T>(p: Pool<T>, h: T, k: nat)
    requires k > 0
    ensures Rotations(p, h, k).handles[..k] == Rotations(p, h, k - 1).handles
  {
  }

  /** Once the newest handle is known to be `a[k % |a|]`, every handle of
      the first `k + 1` attempts is the round-robin one. */
  lemma RoundRobinHandles<T>(a: seq<T>, k: nat)
    requires a != [] && k > 0
    requires RoundRobinAfter(a, k - 1)
    requires Rotations(Pool(a, []), a[0], k).handles[k] == a[k % |a|]
    ensures forall j :: 0 <= j <= k ==> Rotations(Pool(a, []), a[0], k).handles[j] == a[j % |a|]
  {
    var u := Rotations(Pool(a, []), a[0], k);
    RotationsPrefix(Pool(a, []), a[0], k);
    forall j | 0 <= j <= k
      ensures u.handles[j] == a[j % |a|]
    {
      if j < k {
        assert u.handles[j] == u.handles[..k][j];
      }
    }
  }

  /** Demoting each handle of `hs` in turn. */
  function DemoteAll<T(==)>(p: Pool<T>, hs: seq<T>): (q: Pool<T>)
    ensures q.awaiting == p.awaiting + hs
    decreases |hs|
  {
    if hs == [] then p
    else
      var q := DemoteAll(Demote(p, hs[0]), hs[1..]);
      assert [hs[0]] + hs[1..] == hs;
      q
  }

  /** Demoting every active handle in order drains the active list onto the
      end of the awaiting list; the next `get_api` then refills once and
      returns the oldest awaiting handle. */
  lemma DrainThenRefill<T>(a: seq<T>, w: seq<T>)
    requires a + w != []
    ensures DemoteAll(Pool(a, w), a) == Pool([], w + a)
    ensures Refill(DemoteAll(Pool(a, w), a)) == Pool(w + a, [])
    ensures Current(DemoteAll(Pool(a, w), a)) == Api(if w != [] then w[0] else a[0])
  {
    Drain(a, w);
  }

  /** The draining part of `DrainThenRefill`, by induction on `a`. */
  lemma {:induction false} Drain<T>(a: seq<T>, w: seq<T>)
    ensures DemoteAll(Pool(a, w), a) == Pool([], w + a)
  {
    if a != [] {
      DemoteHead(a, w);
      Drain(a[1..], w + [a[0]]);
      assert w + [a[0]] + a[1..] == w + a;
    }
  }

  /** Demoting the head of the active list moves it to the end of the
      awaiting list. */
  lemma DemoteHead<T>(a: seq<T>, w: seq<T>)
    requires a != []
    ensures Demote(Pool(a, w), a[0]) == Pool(a[1..], w + [a[0]])
  {
    assert RemoveFirst(a, a[0]) == a[1..];
  }

  // ---------------------------------------------------------------------
  // The container object
  // ---------------------------------------------------------------------

  /** The container: both lists are fields that its methods update. A
      Dafny sequence is a value, so the copy the constructor takes never
      aliases the caller's list. */
  class ApiContainer<T(==)> {
    var apiList: seq<T>
    var awaitingApis: seq<T>

    function State(): Pool<T>
      reads this
    {
      Pool(apiList, awaitingApis)
    }

    constructor (apis: seq<T>)
      ensures apiList == apis && awaitingApis == []
      ensures Current(State()) == if apis == [] then IndexError else Api(apis[0])
    {
      apiList := apis;
      awaitingApis := [];
    }

    /** Returns the head of the active list, refilling it first from the
        awaiting list when it is empty. */
    method GetApi() returns (r: Fetch<T>)
      modifies this
      ensures r == Current(old(State())) && State() == Refill(old(State()))
      ensures old(apiList) != [] ==>
        r == Api(old(apiList)[0]) && apiList == old(apiList) && awaitingApis == old(awaitingApis)
      ensures old(apiList) == [] ==> apiList == old(awaitingApis) && awaitingApis == []
      ensures old(apiList) == [] && old(awaitingApis) != [] ==> r == Api(old(awaitingApis)[0])
      ensures r.IndexError? <==> old(apiList) == [] && old(awaitingApis) == []
      ensures Total(State()) == Total(old(State()))
    {
      if apiList == [] {
        apiList := awaitingApis;
        awaitingApis := [];
      }
      if apiList == [] {
        r := IndexError;
      } else {
        r := Api(apiList[0]);
      }
    }

    /** Sets `api` aside: appends it to the awaiting list and removes its
        first occurrence, if any, from the active list. */
    method ToAwaiting(api: T)
      modifies this
      ensures State() == Demote(old(State()), api)
      ensures awaitingApis == old(awaitingApis) + [api]
      ensures apiList == RemoveFirst(old(apiList), api)
      ensures Total(State()) == Total(old(State())) + (if api in old(apiList) then multiset{} else multiset{api})
    {
      DemoteConserves(State(), api);
      awaitingApis := awaitingApis + [api];
      if api in apiList {
        apiList := RemoveFirst(apiList, api);
      }
    }
  }
}
