/** A model of package `injector`: a registry of named dependencies whose
    `Inject` only validates its arguments and whose `Get` only reports whether
    a name is registered.

    Go values of type `interface{}` are modelled by the type parameter `V`;
    the nil interface is `None`. The `*Injector` receiver never has its
    `dependencies` field written, so the injector is a value and every
    operation is a function of it. */
module Injector {

  datatype Option<+T> = None | Some(value: T)

  /** The three errors the package can return. */
  datatype Err =
    | NameEmpty              // errInjectorNameCannotBeEmpty
    | SourceNil              // errInjectorSourceCannotBeNil
    | NotFound(name: string) // fmt.Errorf("dependency %s not found", name)

  /** The text of each error, as `Error()` would give it. */
  function Message(e: Err): string
  {
    match e
    case NameEmpty => "injector: name cannot be empty"
    case SourceNil => "injector: source cannot be nil"
    case NotFound(name) => "dependency " + name + " not found"
  }

  /** `t` occurs in `s` starting at index `i`. */
  predicate OccursAt(s: string, t: string, i: nat)
  {
    i + |t| <= |s| && s[i..i + |t|] == t
  }

  /** `t` is a substring of `s`. */
  predicate Contains(s: string, t: string)
  {
    exists i: nat :: i <= |s| && OccursAt(s, t, i)
  }

  /** A not-found error mentions the requested name and says "not found". */
  lemma NotFoundMessageNamesKey(name: string)
    ensures Contains(Message(NotFound(name)), name)
    ensures Contains(Message(NotFound(name)), "not found")
  {
    var m := Message(NotFound(name));
    assert OccursAt(m, name, 11);
    assert OccursAt(m, "not found", 12 + |name|);
  }

  /** The characters that tell the three messages apart. */
  lemma MessageHead(e: Err)
    ensures |Message(e)| > 10
    ensures Message(e)[0] == if e.NotFound? then 'd' else 'i'
    ensures e.NameEmpty? ==> Message(e)[10] == 'n'
    ensures e.SourceNil? ==> Message(e)[10] == 's'
  {
  }

  /** Distinct errors have distinct messages: the message identifies the
      error, and for a not-found error the name it carries. */
  lemma MessageInjective(e1: Err, e2: Err)
    requires Message(e1) == Message(e2)
    ensures e1 == e2
  {
    if e1.NotFound? && e2.NotFound? {
      var m1, m2 := Message(e1), Message(e2);
      assert e1.name == m1[11..|m1| - 10] == m2[11..|m2| - 10] == e2.name;
    } else if e1 != e2 {
      MessageHead(e1);
      MessageHead(e2);
      assert false;
    }
  }

  /** The `Injector` struct: its only field is the `dependencies` map. */
  datatype Injector<V> = Injector(dependencies: map<string, V>)

  /** `New` leaves `dependencies` nil, which Go reads as an empty map. */
  function New<V>(): (inj: Injector<V>)
    ensures forall name: string {:trigger name in inj.dependencies} :: name !in inj.dependencies
  {
    Injector(map[])
  }

  /** `Inject` checks the name before the source and stores nothing: the
      first component of the result is the injector afterwards, the second
      the error returned. */
  function Inject<V>(inj: Injector<V>, name: string, source: Option<V>): (r: (Injector<V>, Option<Err>))
    ensures r.0 == inj
    ensures name == "" ==> r.1 == Some(NameEmpty)
    ensures name != "" && source == None ==> r.1 == Some(SourceNil)
    ensures name != "" && source != None ==> r.1 == None
  {
    if name == "" then (inj, Some(NameEmpty))
    else if source.None? then (inj, Some(SourceNil))
    else (inj, None)
  }

  /** `Get` returns a nil value in every case; the error is not-found exactly
      when the name is absent from `dependencies`. */
  function Get<V>(inj: Injector<V>, name: string): (r: (Option<V>, Option<Err>))
    ensures r.0 == None
    ensures r.1 == None <==> name in inj.dependencies
    ensures r.1 != None ==> r.1 == Some(NotFound(name))
  {
    if name !in inj.dependencies then (None, Some(NotFound(name)))
    else (None, None)
  }

  /** `Inject` succeeds exactly on a non-empty name with a non-nil source,
      whatever the injector holds. */
  lemma InjectSucceedsIff<V>(inj: Injector<V>, name: string, source: Option<V>)
    ensures Inject(inj, name, source).1 == None <==> name != "" && source.Some?
  {
  }

  /** The outcome of `Get` depends only on which names are registered, never
      on the values stored under them. */
  lemma GetIgnoresStoredValues<V>(a: Injector<V>, b: Injector<V>, name: string)
    requires a.dependencies.Keys == b.dependencies.Keys
    ensures Get(a, name) == Get(b, name)
  {
  }

  /** On a fresh injector `Get` fails for every name. */
  lemma GetOnNewFails<V>(name: string)
    ensures Get(New<V>(), name) == (None, Some(NotFound(name)))
  {
  }

  // A session: a sequence of calls made on one injector.

  datatype Call<V> =
    | InjectCall(name: string, source: Option<V>)
    | GetCall(name: string)

  datatype Reply<V> =
    | Injected(err: Option<Err>)
    | Got(value: Option<V>, err: Option<Err>)

  /** One call on `inj`: the injector afterwards and what the call returned. */
  function Apply<V>(inj: Injector<V>, c: Call<V>): (r: (Injector<V>, Reply<V>))
  {
    match c
    case InjectCall(name, source) =>
      var (after, err) := Inject(inj, name, source);
      (after, Injected(err))
    case GetCall(name) =>
      var (value, err) := Get(inj, name);
      (inj, Got(value, err))
  }

  /** The calls made in order: the final injector and one reply per call. */
  function Run<V>(inj: Injector<V>, calls: seq<Call<V>>): (r: (Injector<V>, seq<Reply<V>>))
    ensures |r.1| == |calls|
    decreases |calls|
  {
    if calls == [] then (inj, [])
    else
      var (next, reply) := Apply(inj, calls[0]);
      var (final, replies) := Run(next, calls[1..]);
      (final, [reply] + replies)
  }

  /** No sequence of calls changes `dependencies`. */
  lemma {:induction false} RunPreservesRegistry<V>(inj: Injector<V>, calls: seq<Call<V>>)
    ensures Run(inj, calls).0 == inj
    decreases |calls|
  {
    if calls != [] {
      RunPreservesRegistry(inj, calls[1..]);
    }
  }

  /** Since nothing changes the registry, each call in a session answers as
      it would if it were made alone on the original injector. */
  lemma {:induction false} RunRepliesIndependent<V>(inj: Injector<V>, calls: seq<Call<V>>, k: nat)
    requires k < |calls|
    ensures Run(inj, calls).1[k] == Apply(inj, calls[k]).1
    decreases |calls|
  {
    if k > 0 {
      RunRepliesIndependent(inj, calls[1..], k - 1);
    }
  }

  /** After `New`, no sequence of `Inject` and `Get` calls ever makes a `Get`
      succeed: each one reports the name it was asked for as not found. */
  lemma FreshSessionNeverFinds<V>(calls: seq<Call<V>>, k: nat)
    requires k < |calls| && calls[k].GetCall?
    ensures Run(New<V>(), calls).1[k] == Got(None, Some(NotFound(calls[k].name)))
  {
    RunRepliesIndependent(New<V>(), calls, k);
  }

  /** Every `Inject` in a session returns the error its arguments alone
      determine, in the order name first, then source. */
  lemma SessionInjectVerdict<V>(inj: Injector<V>, calls: seq<Call<V>>, k: nat)
    requires k < |calls| && calls[k].InjectCall?
    ensures calls[k].name == "" ==> Run(inj, calls).1[k] == Injected(Some(NameEmpty))
    ensures calls[k].name != "" && calls[k].source == None ==> Run(inj, calls).1[k] == Injected(Some(SourceNil))
    ensures calls[k].name != "" && calls[k].source != None ==> Run(inj, calls).1[k] == Injected(None)
  {
    RunRepliesIndependent(inj, calls, k);
  }
}
