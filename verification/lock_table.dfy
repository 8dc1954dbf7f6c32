/** Locks told apart by fencing tokens. */
module LockTable {
  // The in-memory target's locks: exclusive, stolen when stale, told apart by fencing tokens.

  import opened EncodedGraph

  /** What an acquired lock's handle knows. */
  datatype Handle = Handle(key: string, token: nat)

  /** Per key: the token of the lock held now, and the last token handed out. */
  datatype Locks = Locks(held: map<string, nat>, tokens: map<string, nat>)

  /** `stale` is what the clock says of the lock held at that moment; removing a path drops its lock. */
  datatype Event = Acquire(key: string, stale: bool) | Release(handle: Handle) | Remove(key: string)

  function LastToken(s: Locks, key: string): nat {
    if key in s.tokens then s.tokens[key] else 0
  }

  predicate Valid(s: Locks, h: Handle) {
    h.key in s.held && s.held[h.key] == h.token
  }

  /** One look of the acquiring loop: the lock is free or stale, or there is nothing to do but wait. */
  predicate Free(s: Locks, key: string, stale: bool) {
    key !in s.held || stale
  }

  function Taken(s: Locks, key: string): Locks {
    var token := LastToken(s, key) + 1;
    Locks(s.held[key := token], s.tokens[key := token])
  }

  function Step(s: Locks, e: Event): Locks {
    match e
    case Acquire(key, stale) => if Free(s, key, stale) then Taken(s, key) else s
    case Release(h) => if Valid(s, h) then s.(held := s.held - {h.key}) else s
    case Remove(key) => s.(held := s.held - {key})
  }

  /** The handle an event hands out. */
  function Issued(s: Locks, e: Event): Option<Handle> {
    if e.Acquire? && Free(s, e.key, e.stale) then Some(Handle(e.key, LastToken(s, e.key) + 1)) else None
  }

  function Run(es: seq<Event>): Locks {
    if es == [] then Locks(map[], map[]) else Step(Run(es[..|es| - 1]), es[|es| - 1])
  }

  /** All handles of a run, in the order they were handed out. */
  function Handles(es: seq<Event>): seq<Handle> {
    if es == [] then []
    else
      var issued := Issued(Run(es[..|es| - 1]), es[|es| - 1]);
      Handles(es[..|es| - 1]) + (if issued.Some? then [issued.value] else [])
  }

  /** The locks of the in-memory target. */
  class LockMap {
    var held: map<string, nat>
    var fencingTokens: map<string, nat>

    constructor ()
      ensures State() == Run([])
    {
      held, fencingTokens := map[], map[];
    }

    function State(): Locks
      reads this
    {
      Locks(held, fencingTokens)
    }

    /** `acquireLock`, one look of its loop: `None` means wait, or give up when the deadline has passed. */
    method TryAcquire(key: string, stale: bool) returns (h: Option<Handle>)
      modifies this
      ensures State() == Step(old(State()), Acquire(key, stale))
      ensures h == Issued(old(State()), Acquire(key, stale))
      ensures h.Some? ==> Valid(State(), h.value)
    {
      if key in held {
        if !stale {
          return None;
        }
        held := held - {key};
      }
      var token := (if key in fencingTokens then fencingTokens[key] else 0) + 1;
      fencingTokens := fencingTokens[key := token];
      held := held[key := token];
      assert held == old(held)[key := token];
      h := Some(Handle(key, token));
    }

    /** `assertValid`: false is the error. */
    method AssertValid(h: Handle) returns (ok: bool)
      ensures ok == Valid(State(), h)
    {
      ok := h.key in held && held[h.key] == h.token;
    }

    method ReleaseLock(h: Handle)
      modifies this`held
      ensures State() == Step(old(State()), Release(h))
      ensures !Valid(old(State()), h) ==> State() == old(State())
    {
      if h.key in held && held[h.key] == h.token {
        held := held - {h.key};
      }
    }

    method RemovePath(key: string)
      modifies this`held
      ensures State() == Step(old(State()), Remove(key))
    {
      held := held - {key};
    }
  }

  /** A held lock carries the last token, and no handle carries a later one. */
  ghost predicate Ordered(s: Locks, handles: seq<Handle>) {
    && (forall key | key in s.held :: s.held[key] == LastToken(s, key))
    && (forall i | 0 <= i < |handles| :: 1 <= handles[i].token <= LastToken(s, handles[i].key))
    && (forall i, j | 0 <= i < j < |handles| && handles[i].key == handles[j].key :: handles[i].token < handles[j].token)
  }

  lemma {:induction false} RunOrdered(es: seq<Event>)
    ensures Ordered(Run(es), Handles(es))
    decreases |es|
  {
    if es != [] {
      RunOrdered(es[..|es| - 1]);
    }
  }

  /** Over every run, the tokens handed out for a key strictly increase. */
  lemma TokensIncrease(es: seq<Event>, i: nat, j: nat)
    requires i < j < |Handles(es)| && Handles(es)[i].key == Handles(es)[j].key
    ensures Handles(es)[i].token < Handles(es)[j].token
  {
    RunOrdered(es);
  }

  /** At most one handle of a key is valid, and it is the last one handed out for the key. */
  lemma OnlyLastIsValid(es: seq<Event>, i: nat)
    requires i < |Handles(es)| && Valid(Run(es), Handles(es)[i])
    ensures forall j | 0 <= j < |Handles(es)| && j != i && Handles(es)[j].key == Handles(es)[i].key ::
              j < i && !Valid(Run(es), Handles(es)[j])
  {
    RunOrdered(es);
  }

  lemma {:induction false} HandlesGrow(es: seq<Event>, more: seq<Event>)
    ensures Handles(es) <= Handles(es + more)
    decreases |more|
  {
    if more == [] {
      assert es + more == es;
    } else {
      var front := more[..|more| - 1];
      assert (es + more)[..|es + more| - 1] == es + front;
      HandlesGrow(es, front);
    }
  }

  /** A handle that lost its lock never gets it back. */
  lemma {:induction false} InvalidForever(es: seq<Event>, more: seq<Event>, i: nat)
    requires i < |Handles(es)| && !Valid(Run(es), Handles(es)[i])
    ensures i < |Handles(es + more)| && Handles(es + more)[i] == Handles(es)[i] &&
            !Valid(Run(es + more), Handles(es)[i])
    decreases |more|
  {
    HandlesGrow(es, more);
    if more == [] {
      assert es + more == es;
    } else {
      var front := more[..|more| - 1];
      assert (es + more)[..|es + more| - 1] == es + front;
      InvalidForever(es, front, i);
      RunOrdered(es + front);
      assert Handles(es + front)[i].token <= LastToken(Run(es + front), Handles(es)[i].key);
    }
  }

  /** Releasing a lock that was taken over changes nothing; releasing one's own frees exactly that key. */
  lemma StaleReleaseIsHarmless(es: seq<Event>, i: nat)
    requires i < |Handles(es)|
    ensures var s, h := Run(es), Handles(es)[i];
            Step(s, Release(h)) == if Valid(s, h) then s.(held := s.held - {h.key}) else s
    ensures forall j | i < j < |Handles(es)| && Handles(es)[j].key == Handles(es)[i].key &&
            Valid(Run(es), Handles(es)[j]) ::
              Valid(Step(Run(es), Release(Handles(es)[i])), Handles(es)[j])
  {
    RunOrdered(es);
  }

  /** A takeover invalidates every earlier handle of the key. */
  lemma TakeoverFences(es: seq<Event>, key: string, stale: bool, i: nat)
    requires Free(Run(es), key, stale) && i < |Handles(es)| && Handles(es)[i].key == key
    ensures var es' := es + [Acquire(key, stale)];
            && |Handles(es')| == |Handles(es)| + 1 && Valid(Run(es'), Handles(es')[|Handles(es)|])
            && !Valid(Run(es'), Handles(es)[i])
  {
    var es' := es + [Acquire(key, stale)];
    assert es'[..|es|] == es;
    RunOrdered(es);
  }

  // Exclusion.

  ghost predicate HeldByOne(s: Locks, handles: seq<Handle>) {
    forall key | key in s.held :: Handle(key, s.held[key]) in handles
  }

  lemma {:induction false} HolderIsIssued(es: seq<Event>)
    ensures HeldByOne(Run(es), Handles(es))
    decreases |es|
  {
    if es != [] {
      HolderIsIssued(es[..|es| - 1]);
    }
  }

  /** Some handle handed out for the key is valid. */
  ghost predicate InUse(es: seq<Event>, key: string) {
    exists h | h in Handles(es) :: h.key == key && Valid(Run(es), h)
  }

  lemma Extended(es: seq<Event>, e: Event)
    ensures Run(es + [e]) == Step(Run(es), e)
    ensures var issued := Issued(Run(es), e);
            Handles(es + [e]) == Handles(es) + if issued.Some? then [issued.value] else []
  {
    assert (es + [e])[..|es|] == es;
  }

  /** A look of the acquiring loop hands out a handle if and only if none is valid, or the lock held is stale. */
  lemma AcquiredIff(es: seq<Event>, key: string, stale: bool)
    ensures |Handles(es + [Acquire(key, stale)])| == |Handles(es)| + 1 <==> stale || !InUse(es, key)
    ensures InUse(es + [Acquire(key, stale)], key)
  {
    Extended(es, Acquire(key, stale));
    HolderIsIssued(es);
    HolderIsIssued(es + [Acquire(key, stale)]);
    if key in Run(es).held {
      assert Valid(Run(es), Handle(key, Run(es).held[key]));
    }
    assert Valid(Run(es + [Acquire(key, stale)]), Handle(key, Run(es + [Acquire(key, stale)]).held[key]));
  }

  /** What may take a lock from its holder: his own release, a takeover of the stale lock, removal of the path. */
  predicate Ends(e: Event, h: Handle) {
    e == Release(h) || e == Acquire(h.key, true) || e == Remove(h.key)
  }

  /** A valid handle stays valid until one of these, and is invalid after it. */
  lemma {:induction false} ValidUntil(es: seq<Event>, more: seq<Event>, h: Handle)
    requires h in Handles(es) && Valid(Run(es), h)
    ensures Valid(Run(es + more), h) <==> forall e | e in more :: !Ends(e, h)
    decreases |more|
  {
    if more == [] {
      assert es + more == es;
    } else {
      var front, last := more[..|more| - 1], more[|more| - 1];
      assert es + more == (es + front) + [last] && more == front + [last];
      ValidUntil(es, front, h);
      Extended(es + front, last);
      HandlesGrow(es, front);
      RunOrdered(es + front);
      var i :| 0 <= i < |Handles(es)| && Handles(es)[i] == h;
      if !Valid(Run(es + front), h) {
        InvalidForever(es + front, [last], i);
        var e :| e in front && Ends(e, h);
        assert e in more;
      } else {
        ValidNext(Run(es + front), Handles(es + front), h, last);
        assert forall e :: e in more <==> e in front || e == last;
      }
    }
  }

  lemma ValidNext(s: Locks, handles: seq<Handle>, h: Handle, e: Event)
    requires Ordered(s, handles) && h in handles && Valid(s, h)
    ensures Valid(Step(s, e), h) <==> !Ends(e, h)
  {
  }

  /** Once released or removed, the key is free. */
  lemma FreedByRelease(es: seq<Event>, h: Handle)
    requires h in Handles(es) && Valid(Run(es), h)
    ensures !InUse(es + [Release(h)], h.key) && !InUse(es + [Remove(h.key)], h.key)
  {
    Extended(es, Release(h));
    Extended(es, Remove(h.key));
  }
}
