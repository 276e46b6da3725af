/**
 Capture of the `sub` and `scope` claims (token_utils.c:16-80).

 PostgreSQL's JSON parser is not part of this model. It is a parameter that
 maps the payload text to the sequence of callbacks it makes, field starts and
 scalars in document order, and to whether it stopped with an error. The C code
 keeps two `char *` slots; besides NULL and a copied string, a slot can hold the
 sentinel `(char *) 1`, meaning "the field name was seen, its value has not
 come yet". That sentinel is `Marked` here.
 */
module Claims {

  datatype Slot = NotSeen | Marked | Captured(value: string) {
    /** What the validator's NULL test sees: anything but NULL counts as present. */
    predicate Present() {
      !NotSeen?
    }
  }

  datatype Fields = Fields(sub: Slot, scope: Slot)

  /** One callback from the parser: `object_field_start(fname)` or `scalar(token)`. */
  datatype Event = FieldStart(name: string) | Scalar(text: string)

  /** Callbacks made, in order, and whether the parse ended in an error. */
  datatype ParseRun = ParseRun(events: seq<Event>, failed: bool)

  type JsonParser = string -> ParseRun

  const SubName: string := "sub"
  const ScopeName: string := "scope"

  /** The zeroed slot array of `palloc0` (token_utils.c:60). */
  const Initial: Fields := Fields(NotSeen, NotSeen)

  /** `token_field_start`: a `sub` or `scope` name marks its slot, whatever it held. */
  function OnFieldStart(f: Fields, fname: string): (r: Fields)
    ensures fname == SubName ==> r == Fields(Marked, f.scope)
    ensures fname == ScopeName ==> r == Fields(f.sub, Marked)
    ensures fname != SubName && fname != ScopeName ==> r == f
  {
    if fname == SubName then f.(sub := Marked)
    else if fname == ScopeName then f.(scope := Marked)
    else f
  }

  /** `token_scalar`: the value goes to a marked `sub` first, else to a marked `scope`. */
  function OnScalar(f: Fields, token: string): (r: Fields)
    ensures f.sub == Marked ==> r == Fields(Captured(token), f.scope)
    ensures f.sub != Marked && f.scope == Marked ==> r == Fields(f.sub, Captured(token))
    ensures f.sub != Marked && f.scope != Marked ==> r == f
  {
    if f.sub == Marked then f.(sub := Captured(token))
    else if f.scope == Marked then f.(scope := Captured(token))
    else f
  }

  function Apply(f: Fields, e: Event): Fields {
    match e
    case FieldStart(name) => OnFieldStart(f, name)
    case Scalar(text) => OnScalar(f, text)
  }

  /** The slots after the parser has made the callbacks `events`, in order. */
  function Replay(events: seq<Event>): Fields {
    if events == [] then Initial
    else Apply(Replay(events[..|events| - 1]), events[|events| - 1])
  }

  lemma ReplayStep(p: seq<Event>, e: Event)
    ensures Replay(p + [e]) == Apply(Replay(p), e)
  {
    assert (p + [e])[..|p|] == p;
  }

  /**
   `extract_sub_scope_fields`: the slots after the parse. The parser's result
   code is discarded (token_utils.c:75), so a parse error keeps what was captured
   before it.
   */
  function ExtractSubScopeFields(json: string, parse: JsonParser): (r: Fields)
    ensures r.sub.NotSeen? <==> FieldStart(SubName) !in parse(json).events
    ensures r.scope.NotSeen? <==> FieldStart(ScopeName) !in parse(json).events
    ensures r.sub.Captured? ==> Scalar(r.sub.value) in parse(json).events
    ensures r.scope.Captured? ==> Scalar(r.scope.value) in parse(json).events
  {
    var events := parse(json).events;
    ReplayShape(events);
    Replay(events)
  }

  /** A slot is NULL exactly when its name never started a field; a captured value is some scalar. */
  lemma {:induction false} ReplayShape(es: seq<Event>)
    ensures Replay(es).sub.NotSeen? <==> FieldStart(SubName) !in es
    ensures Replay(es).scope.NotSeen? <==> FieldStart(ScopeName) !in es
    ensures Replay(es).sub.Captured? ==> Scalar(Replay(es).sub.value) in es
    ensures Replay(es).scope.Captured? ==> Scalar(Replay(es).scope.value) in es
    decreases |es|
  {
    if es != [] {
      var p, e := es[..|es| - 1], es[|es| - 1];
      assert es == p + [e];
      ReplayShape(p);
    }
  }

  // ---- An independent account of the `sub` slot ----

  /** Index of the last `FieldStart(name)`, or -1. */
  function LastStart(es: seq<Event>, name: string): (m: int)
    ensures -1 <= m < |es|
    ensures m >= 0 ==> es[m] == FieldStart(name)
    ensures forall j :: m < j < |es| ==> es[j] != FieldStart(name)
  {
    if es == [] then -1
    else if es[|es| - 1] == FieldStart(name) then |es| - 1
    else LastStart(es[..|es| - 1], name)
  }

  /** Index of the first scalar at or after `i`, or `|es|`. */
  function FirstScalarFrom(es: seq<Event>, i: nat): (k: nat)
    requires i <= |es|
    ensures i <= k <= |es|
    ensures k < |es| ==> es[k].Scalar?
    ensures forall j :: i <= j < k ==> !es[j].Scalar?
    decreases |es| - i
  {
    if i == |es| || es[i].Scalar? then i else FirstScalarFrom(es, i + 1)
  }

  lemma FirstScalarUnique(es: seq<Event>, i: nat, k: nat)
    requires i <= k <= |es|
    requires k < |es| ==> es[k].Scalar?
    requires forall j :: i <= j < k ==> !es[j].Scalar?
    ensures FirstScalarFrom(es, i) == k
  {
  }

  /**
   Where the `sub` slot ends up, read off the stream: NULL if `sub` never
   started a field; else the first scalar after its last start, or the dangling
   mark if no scalar follows it.
   */
  function SubReference(es: seq<Event>): Slot {
    var m := LastStart(es, SubName);
    if m < 0 then NotSeen
    else
      var k := FirstScalarFrom(es, m + 1);
      if k == |es| then Marked else Captured(es[k].text)
  }

  lemma LastStartStep(p: seq<Event>, e: Event, name: string)
    ensures LastStart(p + [e], name) == if e == FieldStart(name) then |p| else LastStart(p, name)
  {
    assert (p + [e])[..|p|] == p;
  }

  /** A `sub` field start as the last callback leaves `sub` marked by both accounts. */
  lemma SubReferenceAfterSubStart(p: seq<Event>)
    ensures Replay(p + [FieldStart(SubName)]).sub == SubReference(p + [FieldStart(SubName)]) == Marked
  {
    var es := p + [FieldStart(SubName)];
    ReplayStep(p, FieldStart(SubName));
    LastStartStep(p, FieldStart(SubName), SubName);
    FirstScalarUnique(es, |es|, |es|);
  }

  /** Reference account: only a scalar after a pending `sub` mark changes it. */
  lemma SubReferenceAfterOther(p: seq<Event>, e: Event)
    requires e != FieldStart(SubName)
    ensures SubReference(p + [e])
         == if e.Scalar? && SubReference(p) == Marked then Captured(e.text) else SubReference(p)
  {
    var es := p + [e];
    LastStartStep(p, e, SubName);
    var m := LastStart(p, SubName);
    if m >= 0 {
      var k := FirstScalarFrom(p, m + 1);
      if k < |p| {
        FirstScalarUnique(es, m + 1, k);
        assert es[k] == p[k];
      } else if e.Scalar? {
        FirstScalarUnique(es, m + 1, |p|);
      } else {
        FirstScalarUnique(es, m + 1, |es|);
      }
    }
  }

  /** The fold: likewise, only a scalar while `sub` is marked changes `sub`. */
  lemma ReplaySubAfterOther(p: seq<Event>, e: Event)
    requires e != FieldStart(SubName)
    ensures Replay(p + [e]).sub
         == if e.Scalar? && Replay(p).sub == Marked then Captured(e.text) else Replay(p).sub
  {
    ReplayStep(p, e);
  }

  /** The fold over the callbacks agrees with the reference account of `sub`. */
  lemma {:induction false} SubSlotMatchesReference(es: seq<Event>)
    ensures Replay(es).sub == SubReference(es)
    decreases |es|
  {
    if es != [] {
      var p, e := es[..|es| - 1], es[|es| - 1];
      assert es == p + [e];
      if e == FieldStart(SubName) {
        SubReferenceAfterSubStart(p);
      } else {
        SubSlotMatchesReference(p);
        SubReferenceAfterOther(p, e);
        ReplaySubAfterOther(p, e);
      }
    }
  }

  // ---- Consequences: last write wins, priority, dangling marks ----

  /** A captured `sub` survives any callbacks that do not start another `sub` field. */
  lemma {:induction false} SubCapturePersists(p: seq<Event>, q: seq<Event>)
    requires Replay(p).sub.Captured?
    requires FieldStart(SubName) !in q
    ensures Replay(p + q).sub == Replay(p).sub
    decreases |q|
  {
    if q == [] {
      assert p + q == p;
    } else {
      var q', e := q[..|q| - 1], q[|q| - 1];
      assert q == q' + [e];
      SubCapturePersists(p, q');
      assert p + q == (p + q') + [e];
      ReplayStep(p + q', e);
    }
  }

  /** A captured `scope` survives any callbacks that do not start another `scope` field. */
  lemma {:induction false} ScopeCapturePersists(p: seq<Event>, q: seq<Event>)
    requires Replay(p).scope.Captured?
    requires FieldStart(ScopeName) !in q
    ensures Replay(p + q).scope == Replay(p).scope
    decreases |q|
  {
    if q == [] {
      assert p + q == p;
    } else {
      var q', e := q[..|q| - 1], q[|q| - 1];
      assert q == q' + [e];
      ScopeCapturePersists(p, q');
      assert p + q == (p + q') + [e];
      ReplayStep(p + q', e);
    }
  }

  /** A repeated `sub` field overwrites the earlier value: the last one wins. */
  lemma SubLastWriteWins(p: seq<Event>, v: string, q: seq<Event>)
    requires FieldStart(SubName) !in q
    ensures Replay(p + [FieldStart(SubName), Scalar(v)] + q).sub == Captured(v)
  {
    var p' := p + [FieldStart(SubName), Scalar(v)];
    assert p' == (p + [FieldStart(SubName)]) + [Scalar(v)];
    ReplayStep(p, FieldStart(SubName));
    ReplayStep(p + [FieldStart(SubName)], Scalar(v));
    SubCapturePersists(p', q);
  }

  /**
   A repeated `scope` field overwrites the earlier value, provided `sub` is not
   waiting for a value when the new scope value arrives.
   */
  lemma ScopeLastWriteWins(p: seq<Event>, v: string, q: seq<Event>)
    requires Replay(p).sub != Marked
    requires FieldStart(ScopeName) !in q
    ensures Replay(p + [FieldStart(ScopeName), Scalar(v)] + q).scope == Captured(v)
  {
    var p' := p + [FieldStart(ScopeName), Scalar(v)];
    assert p' == (p + [FieldStart(ScopeName)]) + [Scalar(v)];
    ReplayStep(p, FieldStart(ScopeName));
    ReplayStep(p + [FieldStart(ScopeName)], Scalar(v));
    ScopeCapturePersists(p', q);
  }

  /** With both slots marked, a scalar fills `sub` and `scope` keeps waiting. */
  lemma SubHasPriority(p: seq<Event>, v: string)
    requires Replay(p) == Fields(Marked, Marked)
    ensures Replay(p + [Scalar(v)]) == Fields(Captured(v), Marked)
  {
    ReplayStep(p, Scalar(v));
  }

  /** A mark with no scalar after it stays a mark to the end of the stream. */
  lemma {:induction false} MarkPersists(p: seq<Event>, q: seq<Event>)
    requires forall i :: 0 <= i < |q| ==> !q[i].Scalar?
    ensures Replay(p).sub == Marked ==> Replay(p + q).sub == Marked
    ensures Replay(p).scope == Marked ==> Replay(p + q).scope == Marked
    decreases |q|
  {
    if q == [] {
      assert p + q == p;
    } else {
      var q', e := q[..|q| - 1], q[|q| - 1];
      assert q == q' + [e];
      MarkPersists(p, q');
      assert p + q == (p + q') + [e];
      ReplayStep(p + q', e);
    }
  }

  /**
   `{"sub": {}, "scope": "read"}`: `sub`'s mark is still pending when the scope
   value arrives, so `sub` takes it and `scope` is left dangling as a mark.
   */
  lemma SubTakesScopeValue()
    ensures Replay([FieldStart(SubName), FieldStart(ScopeName), Scalar("read")])
         == Fields(Captured("read"), Marked)
  {
    var a, b, c := FieldStart(SubName), FieldStart(ScopeName), Scalar("read");
    assert SubName != ScopeName;
    ReplayStep([], a);
    assert [] + [a] == [a];
    ReplayStep([a], b);
    assert [a] + [b] == [a, b];
    ReplayStep([a, b], c);
    assert [a, b] + [c] == [a, b, c];
  }

  /** A flat `{"sub": sv, "scope": cv}` object captures both values. */
  lemma PlainClaims(sv: string, cv: string)
    ensures Replay([FieldStart(SubName), Scalar(sv), FieldStart(ScopeName), Scalar(cv)])
         == Fields(Captured(sv), Captured(cv))
  {
    var a, b, c, d := FieldStart(SubName), Scalar(sv), FieldStart(ScopeName), Scalar(cv);
    assert SubName != ScopeName;
    ReplayStep([], a);
    assert [] + [a] == [a];
    ReplayStep([a], b);
    assert [a] + [b] == [a, b];
    ReplayStep([a, b], c);
    assert [a, b] + [c] == [a, b, c];
    ReplayStep([a, b, c], d);
    assert [a, b, c] + [d] == [a, b, c, d];
  }

  /** Captures made before a parse error are kept: the result code is never looked at. */
  lemma ParseErrorKeepsCaptures(json: string, parse: JsonParser, sv: string, cv: string, q: seq<Event>)
    requires parse(json) == ParseRun([FieldStart(SubName), Scalar(sv), FieldStart(ScopeName), Scalar(cv)] + q, true)
    requires FieldStart(SubName) !in q && FieldStart(ScopeName) !in q
    ensures ExtractSubScopeFields(json, parse) == Fields(Captured(sv), Captured(cv))
  {
    var p := [FieldStart(SubName), Scalar(sv), FieldStart(ScopeName), Scalar(cv)];
    PlainClaims(sv, cv);
    SubCapturePersists(p, q);
    ScopeCapturePersists(p, q);
  }
}
