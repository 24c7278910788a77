/**
 * The listener registry that the sockets and the discovery engine inherit
 * (a copy of the three.js event dispatcher): for each event type, the
 * listeners registered for it, in registration order and without repeats.
 * Listeners are identities only; what a listener does when called is outside
 * the model, so `emit` is modelled by the listeners it calls.
 */
module Events {
  import opened Values

  /**
   * A listener as the registry sees it. `Fn(id)` is a function someone
   * registered; `Once(serial, target)` is the wrapper closure `once` makes
   * around listener `target`, a fresh closure each time, told apart by `serial`.
   */
  datatype Listener = Fn(id: nat) | Once(serial: nat, target: nat)

  /** The listener an entry finally calls: itself, or the one a wrapper wraps. */
  function Target(l: Listener): nat {
    match l
    case Fn(id) => id
    case Once(_, target) => target
  }

  /** The listeners a snapshot finally calls, in order. */
  function Targets(s: seq<Listener>): (r: seq<nat>)
  {
    seq(|s|, k requires 0 <= k < |s| => Target(s[k]))
  }

  lemma TargetsStep(s: seq<Listener>, i: nat)
    requires i < |s|
    ensures Targets(s[..i + 1]) == Targets(s[..i]) + [Target(s[i])]
  {
  }

  /** No listener occurs twice. */
  predicate NoDup(s: seq<Listener>)
    decreases |s|
  {
    s == [] || (s[0] !in s[1..] && NoDup(s[1..]))
  }

  /** Pushing a listener the array does not hold keeps it free of repeats. */
  lemma {:induction false} NoDupAppend(s: seq<Listener>, x: Listener)
    requires x !in s
    ensures NoDup(s) ==> NoDup(s + [x])
    decreases |s|
  {
    if s != [] {
      NoDupAppend(s[1..], x);
      assert (s + [x])[1..] == s[1..] + [x];
    }
  }

  /** One type's array in a registry that has made `serial` wrappers: no repeats, and only wrappers it made. */
  predicate WellFormed(list: seq<Listener>, serial: nat) {
    NoDup(list) && forall l | l in list && l.Once? :: l.serial < serial
  }

  // ---------------------------------------------------------------------------
  // The list operations the registry applies to one type's array

  /** `if (list.indexOf(l) === -1) list.push(l)`. */
  function Add(list: seq<Listener>, l: Listener): (r: seq<Listener>)
    ensures l in r
    ensures forall x :: x in r <==> x in list || x == l
    ensures |r| >= |list| && r[..|list|] == list
    ensures NoDup(list) ==> NoDup(r)
  {
    if l in list then list else NoDupAppend(list, l); list + [l]
  }

  /** `list.indexOf(l)`: the first position of `l`, None for -1. */
  function IndexOf(list: seq<Listener>, l: Listener): (r: Option<nat>)
    ensures r.None? <==> l !in list
    ensures r.Some? ==> r.value < |list| && list[r.value] == l && l !in list[..r.value]
  {
    if list == [] then None
    else if list[0] == l then Some(0)
    else
      match IndexOf(list[1..], l)
      case None => None
      case Some(i) =>
        assert list[..i + 1] == [list[0]] + list[1..][..i];
        Some(i + 1)
  }

  /** `const i = list.indexOf(l); if (i !== -1) list.splice(i, 1)`. */
  function Remove(list: seq<Listener>, l: Listener): (r: seq<Listener>)
    ensures l !in list ==> r == list
  {
    match IndexOf(list, l)
    case None => list
    case Some(i) => list[..i] + list[i + 1..]
  }

  /** The reference meaning of removal: every entry other than `l`, in order. */
  function Without(list: seq<Listener>, l: Listener): (r: seq<Listener>)
    ensures forall x :: x in r <==> x in list && x != l
  {
    if list == [] then []
    else (if list[0] == l then [] else [list[0]]) + Without(list[1..], l)
  }

  /** The entries that are not `once` wrappers, in order. */
  function Plain(list: seq<Listener>): (r: seq<Listener>)
    ensures |r| <= |list|
  {
    if list == [] then []
    else Plain(list[..|list| - 1]) + (if list[|list| - 1].Fn? then [list[|list| - 1]] else [])
  }

  /** `Plain` keeps exactly the entries that are not wrappers. */
  lemma {:induction false} PlainMember(list: seq<Listener>, x: Listener)
    ensures x in Plain(list) <==> x in list && x.Fn?
    decreases |list|
  {
    if list != [] {
      var init := list[..|list| - 1];
      PlainMember(init, x);
      assert list == init + [list[|list| - 1]];
    }
  }

  /** The array while `emit` walks its snapshot `s`: wrappers before `i` have removed themselves. */
  function Stage(s: seq<Listener>, i: nat): seq<Listener>
    requires i <= |s|
  {
    Plain(s[..i]) + s[i..]
  }

  lemma StageEnds(s: seq<Listener>)
    ensures Stage(s, 0) == s && Stage(s, |s|) == Plain(s)
  {
    assert s[..0] == [] && s[0..] == s;
    assert s[..|s|] == s && s[|s|..] == [];
  }

  /** One step of `emit`: a wrapper's self-removal, or nothing for a plain listener. */
  lemma StageStep(s: seq<Listener>, i: nat)
    requires i < |s|
    ensures s[i].Once? ==> Remove(Stage(s, i), s[i]) == Stage(s, i + 1)
    ensures s[i].Fn? ==> Stage(s, i) == Stage(s, i + 1)
  {
    var p, x, rest := Plain(s[..i]), s[i], s[i + 1..];
    PlainStep(s, i);
    assert s[i..] == [x] + rest;
    assert Stage(s, i) == p + [x] + rest;
    if x.Once? {
      assert Stage(s, i + 1) == p + rest;
      PlainMember(s[..i], x);
      RemoveAfter(p, x, rest);
    } else {
      assert Stage(s, i + 1) == p + [x] + rest;
    }
  }

  /** What one `Call` of entry `i` does to the registry during `emit` of snapshot `s`. */
  lemma CallStep(before: map<string, seq<Listener>>, after: map<string, seq<Listener>>, t: string, s: seq<Listener>, i: nat)
    requires i < |s| && t in before && before[t] == Stage(s, i)
    requires s[i].Once? ==> after == before[t := Remove(before[t], s[i])]
    requires s[i].Fn? ==> after == before
    ensures after == before[t := Stage(s, i + 1)]
  {
    StageStep(s, i);
    if s[i].Fn? {
      assert before[t := Stage(s, i + 1)] == before;
    }
  }

  lemma MapUpdateTwice(m: map<string, seq<Listener>>, t: string, a: seq<Listener>, b: seq<Listener>)
    ensures m[t := a][t := b] == m[t := b]
  {
  }

  /** In a list without repeats, `splice` at `indexOf` removes exactly the entry `l`. */
  lemma {:induction false} RemoveIsWithout(list: seq<Listener>, l: Listener)
    requires NoDup(list)
    ensures Remove(list, l) == Without(list, l)
  {
    if list != [] {
      if list[0] == l {
        WithoutAbsent(list[1..], l);
        assert IndexOf(list, l) == Some(0);
        assert list[..0] + list[1..] == list[1..];
      } else {
        RemoveIsWithout(list[1..], l);
        RemoveCons(list, l);
      }
    }
  }

  /** Past a first entry other than `l`, removal happens in the rest. */
  lemma RemoveCons(list: seq<Listener>, l: Listener)
    requires list != [] && list[0] != l
    ensures Remove(list, l) == [list[0]] + Remove(list[1..], l)
  {
    match IndexOf(list[1..], l)
    case None =>
    case Some(i) =>
      assert list[..i + 1] == [list[0]] + list[1..][..i];
      assert list[i + 2..] == list[1..][i + 1..];
  }

  /** Removal keeps an array free of repeats. */
  lemma {:induction false} WithoutNoDup(list: seq<Listener>, l: Listener)
    requires NoDup(list)
    ensures NoDup(Without(list, l))
  {
    if list != [] {
      WithoutNoDup(list[1..], l);
      var w := Without(list[1..], l);
      if list[0] != l {
        assert list[0] !in w;
        assert ([list[0]] + w)[1..] == w;
      } else {
        assert Without(list, l) == w;
      }
    }
  }

  lemma {:induction false} WithoutAbsent(list: seq<Listener>, l: Listener)
    requires l !in list
    ensures Without(list, l) == list
  {
    if list != [] {
      WithoutAbsent(list[1..], l);
      assert list == [list[0]] + list[1..];
    }
  }

  /** `indexOf` finds an entry right after a run of entries that do not contain it. */
  lemma {:induction false} IndexOfAfter(a: seq<Listener>, x: Listener, b: seq<Listener>)
    requires x !in a
    ensures IndexOf(a + [x] + b, x) == Some(|a|)
    decreases |a|
  {
    if a != [] {
      IndexOfAfter(a[1..], x, b);
      assert (a + [x] + b)[1..] == a[1..] + [x] + b;
    }
  }

  /** A wrapper placed after a run of entries that do not contain it is what `splice` removes. */
  lemma RemoveAfter(a: seq<Listener>, x: Listener, b: seq<Listener>)
    requires x !in a
    ensures Remove(a + [x] + b, x) == a + b
  {
    var s := a + [x] + b;
    IndexOfAfter(a, x, b);
    assert s[..|a|] == a && s[|a| + 1..] == b;
  }

  lemma PlainStep(list: seq<Listener>, i: nat)
    requires i < |list|
    ensures Plain(list[..i + 1]) == Plain(list[..i]) + (if list[i].Fn? then [list[i]] else [])
  {
    assert list[..i + 1][..i] == list[..i];
  }

  // ---------------------------------------------------------------------------
  // The registry

  class EventEmitter {
    /** `_listeners`: the array registered for each event type. */
    var listeners: map<string, seq<Listener>>
    /** How many `once` wrappers this registry has made. */
    var serial: nat

    /** No repeats in any array, and every wrapper was made here. */
    ghost predicate Valid()
      reads this
    {
      forall t | t in listeners :: WellFormed(listeners[t], serial)
    }

    /** `listeners[type]`, an absent snapshot read as empty. */
    function Registered(t: string): seq<Listener>
      reads this
    {
      if t in listeners then listeners[t] else []
    }

    /** `hasEventListener(type, listener)`. */
    predicate HasEventListener(t: string, l: Listener)
      reads this
      ensures HasEventListener(t, l) <==> l in Registered(t)
    {
      t in listeners && l in listeners[t]
    }

    constructor ()
      ensures Valid() && listeners == map[] && serial == 0
    {
      listeners := map[];
      serial := 0;
    }

    /** `addEventListener(type, listener)` (`on` is the same call), for a listener this registry may hold. */
    method AddEventListener(t: string, l: Listener)
      requires Valid() && (l.Once? ==> l.serial < serial)
      modifies this
      ensures Valid() && serial == old(serial)
      ensures listeners == old(listeners)[t := Add(old(Registered(t)), l)]
      ensures HasEventListener(t, l)
    {
      var list := if t in listeners then listeners[t] else [];
      ghost var added := Add(list, l);
      if l !in list {
        list := list + [l];
      }
      assert list == added;
      listeners := listeners[t := list];
    }

    /** `on(type, listener)`. */
    method On(t: string, l: Listener)
      requires Valid() && (l.Once? ==> l.serial < serial)
      modifies this
      ensures Valid() && serial == old(serial)
      ensures listeners == old(listeners)[t := Add(old(Registered(t)), l)]
    {
      AddEventListener(t, l);
    }

    /** `once(type, listener)`: registers a fresh wrapper that removes itself before calling `target`. */
    method Once(t: string, target: nat) returns (w: Listener)
      requires Valid()
      modifies this
      ensures Valid() && serial == old(serial) + 1
      ensures w == Listener.Once(old(serial), target) && w !in old(Registered(t))
      ensures listeners == old(listeners)[t := old(Registered(t)) + [w]]
    {
      w := Listener.Once(serial, target);
      assert w !in Registered(t);
      serial := serial + 1;
      AddEventListener(t, w);
    }

    /** `removeEventListener(type, listener)`. */
    method RemoveEventListener(t: string, l: Listener)
      requires Valid()
      modifies this
      ensures Valid() && serial == old(serial)
      ensures t in old(listeners) ==> listeners == old(listeners)[t := Remove(old(listeners[t]), l)]
      ensures t !in old(listeners) ==> listeners == old(listeners)
      ensures t in listeners ==> listeners[t] == Without(old(listeners[t]), l)
      ensures !HasEventListener(t, l)
    {
      if t in listeners {
        RemoveIsWithout(listeners[t], l);
        WithoutNoDup(listeners[t], l);
        listeners := listeners[t := Remove(listeners[t], l)];
      }
    }

    /** `clearEventListeners()`. */
    method ClearEventListeners()
      modifies this
      ensures Valid() && serial == old(serial)
      ensures listeners == map[]
      ensures forall t, l :: !HasEventListener(t, l)
    {
      if |listeners| > 0 {
        listeners := map[];
      }
    }

    /**
     * `listener.call(this, event)` for one entry of the snapshot of the array
     * for `t`: a wrapper first removes itself. Returns the listener finally called.
     */
    method Call(t: string, l: Listener) returns (called: nat)
      requires Valid()
      modifies this
      ensures Valid() && serial == old(serial)
      ensures called == Target(l)
      ensures l.Once? && t in old(listeners) ==> listeners == old(listeners)[t := Remove(old(listeners[t]), l)]
      ensures !(l.Once? && t in old(listeners)) ==> listeners == old(listeners)
    {
      if l.Once? {
        RemoveEventListener(t, l);
      }
      called := Target(l);
    }

    /** Entry `i` of the snapshot `s` of the array for `t`, called while `emit` walks it. */
    method EmitStep(t: string, s: seq<Listener>, i: nat) returns (called: nat)
      requires Valid() && i < |s| && t in listeners && listeners[t] == Stage(s, i)
      modifies this
      ensures Valid() && serial == old(serial)
      ensures called == Target(s[i])
      ensures listeners == old(listeners)[t := Stage(s, i + 1)]
    {
      ghost var before := listeners;
      called := Call(t, s[i]);
      CallStep(before, listeners, t, s, i);
    }

    /**
     * `emit(type, event)`: calls the listeners of a snapshot of the array, in
     * order; a wrapper removes itself before calling its target. Returns the
     * listeners called.
     */
    method Emit(t: string) returns (calls: seq<nat>)
      requires Valid()
      modifies this
      ensures Valid() && serial == old(serial)
      ensures calls == Targets(old(Registered(t)))
      ensures t in old(listeners) ==> listeners == old(listeners)[t := Plain(old(listeners[t]))]
      ensures t !in old(listeners) ==> listeners == old(listeners)
    {
      calls := [];
      if t !in listeners {
        return;
      }
      var snapshot := listeners[t];
      var i := 0;
      StageEnds(snapshot);
      while i < |snapshot|
        invariant 0 <= i <= |snapshot|
        invariant Valid() && serial == old(serial)
        invariant listeners == old(listeners)[t := Stage(snapshot, i)]
        invariant calls == Targets(snapshot[..i])
      {
        TargetsStep(snapshot, i);
        var called := EmitStep(t, snapshot, i);
        MapUpdateTwice(old(listeners), t, Stage(snapshot, i), Stage(snapshot, i + 1));
        calls := calls + [called];
        i := i + 1;
      }
      assert snapshot[..i] == snapshot;
    }
  }

  /** A `once` listener fires at most once: after an `emit`, its type holds no wrapper, and a second `emit` changes nothing. */
  lemma OnceFiresOnce(list: seq<Listener>)
    ensures forall l | l in Plain(list) :: !l.Once?
    ensures Plain(Plain(list)) == Plain(list)
  {
    forall l | l in Plain(list)
      ensures !l.Once?
    {
      PlainMember(list, l);
    }
    PlainKeeps(Plain(list));
  }

  /** A list of plain listeners is its own `Plain`. */
  lemma {:induction false} PlainKeeps(s: seq<Listener>)
    requires forall x | x in s :: x.Fn?
    ensures Plain(s) == s
    decreases |s|
  {
    if s != [] {
      var init := s[..|s| - 1];
      assert forall x | x in init :: x in s;
      PlainKeeps(init);
      assert s[|s| - 1] in s;
      assert s == init + [s[|s| - 1]];
    }
  }
}
