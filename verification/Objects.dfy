// Properties of JavaScript objects (libs/js/object.c); a failed assertion or TypeError is `Halt`.
module Objects {
  import opened Sequences

  // Values are told apart by identity.
  datatype Data = Undefined | NaN | Infinity | Other(id: nat)

  // A descriptor, or a stored property: every field may be absent.
  datatype Prop = Prop(
    value: Option<Data>, getter: Option<Data>, setter: Option<Data>,
    writable: Option<bool>, enumerable: Option<bool>, configurable: Option<bool>)

  type Key = string
  type Props = map<Key, Prop>

  const EMPTY := Prop(None, None, None, None, None, None)

  // ---- Descriptors ----

  predicate IsAccessor(d: Prop) { d.getter.Some? }
  predicate IsData(d: Prop) { d.value.Some? || d.writable.Some? }
  predicate IsGeneric(d: Prop) { !IsData(d) && !IsAccessor(d) }

  function OrElse<T>(x: Option<T>, y: Option<T>): Option<T> { if x.Some? then x else y }

  // Absent fields get their defaults when a property is created.
  function Completed(d: Prop): Prop {
    var c := d.(enumerable := OrElse(d.enumerable, Some(false)), configurable := OrElse(d.configurable, Some(false)));
    if IsGeneric(d) || IsData(d) then
      c.(value := OrElse(d.value, Some(Undefined)), writable := OrElse(d.writable, Some(false)))
    else
      c.(getter := OrElse(d.getter, Some(Undefined)), setter := OrElse(d.setter, Some(Undefined)))
  }

  // The fields of `d` that are present replace those of `p`.
  function Updated(p: Prop, d: Prop): Prop {
    Prop(OrElse(d.value, p.value), OrElse(d.getter, p.getter), OrElse(d.setter, p.setter),
         OrElse(d.writable, p.writable), OrElse(d.enumerable, p.enumerable),
         OrElse(d.configurable, p.configurable))
  }

  // ---- One call, seen from the property it is about ----

  datatype Outcome = Halt | Done(ok: bool, now: Option<Prop>)

  function Reject(current: Option<Prop>, throw: bool): Outcome {
    if throw then Halt else Done(false, current)
  }

  function Define(current: Option<Prop>, extensible: bool, d: Prop, throw: bool): Outcome {
    if current.None? then
      if extensible then Done(true, Some(Completed(d))) else Reject(current, throw)
    else if d == EMPTY then Done(true, current)
    else
      var p := current.value;
      var fixed := p.configurable != Some(true);
      if fixed && (d.configurable == Some(true) || d.enumerable != p.enumerable) then Reject(current, throw)
      else if IsGeneric(d) then Done(true, Some(Updated(p, d)))
      else if IsData(p) != IsData(d) then
        if fixed then Reject(current, throw) else Halt
      else if IsData(p) then
        if fixed && p.writable != Some(true) then
          if d.writable == Some(true) then Reject(current, throw) else Halt
        else Done(true, Some(Updated(p, d)))
      else if fixed then Halt
      else Done(true, Some(Updated(p, d)))
  }

  // What the prototypes offer: `deep` is the property that the prototype's own lookup
  // finds, `near` the one that the prototype itself has.
  datatype Inherited = NoPrototype | Prototype(deep: Option<Prop>, near: Option<Prop>)

  predicate CanPut(own: Option<Prop>, up: Inherited, extensible: bool) {
    if own.Some? then
      if IsAccessor(own.value) then own.value.setter.None? else own.value.writable == Some(true)
    else if up.NoPrototype? || up.deep.None? then extensible
    else if IsAccessor(up.deep.value) then up.deep.value.setter.Some?
    else extensible && up.deep.value.writable == Some(true)
  }

  function Put(own: Option<Prop>, up: Inherited, extensible: bool, v: Data, throw: bool): Outcome {
    if !CanPut(own, up, extensible) then Reject(own, throw)
    else if own.Some? && IsData(own.value) then
      Define(own, extensible, EMPTY.(value := Some(v)), throw)
    else
      var found := if own.Some? then own else if up.Prototype? then up.near else None;
      if found.Some? && IsAccessor(found.value) then Halt
      else Define(own, extensible, Prop(Some(v), None, None, Some(true), Some(true), Some(true)), throw)
  }

  function Delete(own: Option<Prop>, throw: bool): Outcome {
    if own.None? then Done(true, None)
    else if own.value.configurable == Some(true) then Done(true, None)
    else Reject(own, throw)
  }

  // ---- Whole runs ----

  datatype Call =
    | CallPut(key: Key, up: Inherited, v: Data, throw: bool)
    | CallDelete(key: Key, throw: bool)
    | CallDefine(key: Key, desc: Prop, throw: bool)

  function Own(o: Props, k: Key): Option<Prop> {
    if k in o then Some(o[k]) else None
  }

  function Effect(o: Props, extensible: bool, c: Call): Outcome {
    var own := Own(o, c.key);
    match c
    case CallPut(_, up, v, throw) => Put(own, up, extensible, v, throw)
    case CallDelete(_, throw) => Delete(own, throw)
    case CallDefine(_, d, throw) => Define(own, extensible, d, throw)
  }

  function Store(o: Props, k: Key, now: Option<Prop>): Props {
    if now.Some? then o[k := now.value] else o - {k}
  }

  // None once a call has halted.
  function Run(o: Props, extensible: bool, calls: seq<Call>): Option<Props>
    decreases |calls|
  {
    if calls == [] then Some(o)
    else
      var e := Effect(o, extensible, calls[0]);
      if e.Halt? then None else Run(Store(o, calls[0].key, e.now), extensible, calls[1..])
  }

  // What every stored property looks like: complete, as data or as an accessor.
  predicate Complete(p: Prop) {
    p.enumerable.Some? && p.configurable.Some?
    && ((p.value.Some? && p.writable.Some?) || (!IsData(p) && p.getter.Some? && p.setter.Some?))
  }

  ghost predicate AllComplete(o: Props) {
    forall k :: k in o ==> Complete(o[k])
  }

  // A data property that is neither writable nor configurable.
  predicate Frozen(p: Prop) {
    IsData(p) && p.writable == Some(false) && p.configurable == Some(false)
  }

  // Equal in everything that a data property is made of.
  predicate SameData(p: Prop, q: Prop) {
    p.value == q.value && p.getter == q.getter && p.writable == q.writable
    && p.enumerable == q.enumerable && p.configurable == q.configurable
  }

  lemma StepComplete(o: Props, extensible: bool, c: Call)
    requires AllComplete(o) && Effect(o, extensible, c).Done?
    ensures AllComplete(Store(o, c.key, Effect(o, extensible, c).now))
  {
    var e := Effect(o, extensible, c);
    assert e.now.Some? ==> Complete(e.now.value);
  }

  lemma Flag(x: Option<bool>)
    ensures x == None || x == Some(true) || x == Some(false)
  {
    if x.Some? { assert x.value || !x.value; }
  }

  // The one call that writes to a frozen property: a descriptor with a setter and neither
  // getter, value nor `writable`, which leaves `configurable` and `enumerable` as they are.
  predicate WritesSetter(p: Prop, d: Prop) {
    d.setter.Some? && IsGeneric(d) && d.configurable != Some(true) && d.enumerable == p.enumerable
  }

  lemma DefineKeepsFrozen(own: Prop, extensible: bool, d: Prop, throw: bool)
    requires Complete(own) && Frozen(own)
    ensures var e := Define(Some(own), extensible, d, throw);
      e.Done? ==> e.now.Some? && SameData(own, e.now.value)
                  && e.now.value.setter == if WritesSetter(own, d) then d.setter else own.setter
  {
    Flag(d.configurable);
    Flag(d.writable);
  }

  lemma StepKeepsFrozen(o: Props, extensible: bool, c: Call, k: Key)
    requires AllComplete(o) && k in o && Frozen(o[k]) && Effect(o, extensible, c).Done?
    ensures var next := Store(o, c.key, Effect(o, extensible, c).now);
      k in next && Frozen(next[k]) && SameData(o[k], next[k])
      && next[k].setter == if WritesSetterOf(c, k, o[k]) then c.desc.setter else o[k].setter
  {
    hide Define, WritesSetter;
    NoSetterInValue(o[k], c);
    if c.key == k && c.CallDefine? { DefineKeepsFrozen(o[k], extensible, c.desc, c.throw); }
    if c.key == k && c.CallPut? { DefineKeepsFrozen(o[k], extensible, EMPTY.(value := Some(c.v)), c.throw); }
  }

  predicate WritesSetterOf(c: Call, k: Key, p: Prop) {
    c.CallDefine? && c.key == k && WritesSetter(p, c.desc)
  }

  lemma NoSetterInValue(p: Prop, c: Call)
    ensures c.CallPut? ==> !WritesSetter(p, EMPTY.(value := Some(c.v)))
  {}

  lemma SameDataTwice(p: Prop, q: Prop, r: Prop)
    requires SameData(p, q) && SameData(q, r)
    ensures SameData(p, r) && forall d: Prop :: WritesSetter(p, d) <==> WritesSetter(q, d)
  {}

  // A frozen property stays as it is over every run: it is neither removed nor changed, its
  // setter field apart, which is the one of the last call that writes it.
  lemma {:induction false} FrozenForever(o: Props, extensible: bool, calls: seq<Call>, k: Key)
    requires AllComplete(o) && k in o && Frozen(o[k]) && Run(o, extensible, calls).Some?
    ensures var r := Run(o, extensible, calls).value; k in r && Frozen(r[k]) && SameData(o[k], r[k])
    ensures Run(o, extensible, calls).value[k].setter == LastSetter(o[k], k, calls)
    decreases |calls|
  {
    if calls != [] {
      hide WritesSetter, SameData, Frozen;
      var c := calls[0];
      var e := Effect(o, extensible, c);
      var next := Store(o, c.key, e.now);
      StepComplete(o, extensible, c);
      StepKeepsFrozen(o, extensible, c, k);
      FrozenForever(next, extensible, calls[1..], k);
      SameDataTwice(o[k], next[k], Run(next, extensible, calls[1..]).value[k]);
      LastSetterNext(o[k], next[k], k, calls);
    } else {
      assert SameData(o[k], o[k]);
    }
  }

  // The setter field of a frozen property after some calls.
  function LastSetter(p: Prop, k: Key, calls: seq<Call>): Option<Data>
    decreases |calls|
  {
    if calls == [] then p.setter
    else
      LastSetter(if WritesSetterOf(calls[0], k, p) then p.(setter := calls[0].desc.setter) else p, k, calls[1..])
  }

  lemma LastSetterNext(p: Prop, q: Prop, k: Key, calls: seq<Call>)
    requires calls != [] && SameData(p, q)
    requires q.setter == if WritesSetterOf(calls[0], k, p) then calls[0].desc.setter else p.setter
    ensures LastSetter(p, k, calls) == LastSetter(q, k, calls[1..])
  {
    assert q == if WritesSetterOf(calls[0], k, p) then p.(setter := calls[0].desc.setter) else p;
  }

  // An object that is not extensible never gets a key.
  lemma {:induction false} KeysNeverGrow(o: Props, calls: seq<Call>)
    requires Run(o, false, calls).Some?
    ensures Run(o, false, calls).value.Keys <= o.Keys
    decreases |calls|
  {
    if calls != [] {
      var c := calls[0];
      var next := Store(o, c.key, Effect(o, false, c).now);
      assert next.Keys <= o.Keys;
      KeysNeverGrow(next, calls[1..]);
    }
  }

  // ---- The global object ----

  function ReadOnly(v: Data): Prop {
    Prop(Some(v), None, None, Some(false), Some(false), Some(false))
  }

  function Globals(): seq<Call> {
    [CallDefine("NaN", ReadOnly(NaN), true), CallDefine("Infinity", ReadOnly(Infinity), true),
     CallDefine("undefined", ReadOnly(Undefined), true)]
  }

  predicate GlobalConstants(o: Props) {
    "NaN" in o && "Infinity" in o && "undefined" in o
    && o["NaN"].value == Some(NaN) && o["Infinity"].value == Some(Infinity) && o["undefined"].value == Some(Undefined)
  }

  lemma GlobalsDefined()
    ensures var o: Props := map["NaN" := ReadOnly(NaN), "Infinity" := ReadOnly(Infinity), "undefined" := ReadOnly(Undefined)];
      Run(map[], true, Globals()) == Some(o) && AllComplete(o)
      && Frozen(o["NaN"]) && Frozen(o["Infinity"]) && Frozen(o["undefined"])
  {
    var o0: Props := map[];
    var o1 := o0["NaN" := ReadOnly(NaN)];
    var o2 := o1["Infinity" := ReadOnly(Infinity)];
    var o3 := o2["undefined" := ReadOnly(Undefined)];
    assert Globals()[1..] == [Globals()[1], Globals()[2]] && Globals()[1..][1..] == [Globals()[2]];
    assert "Infinity" != "NaN" && "undefined" != "NaN" && "undefined" != "Infinity" by {
      assert |"NaN"| == 3 && |"Infinity"| == 8 && |"undefined"| == 9;
    }
    assert Run(o3, true, []) == Some(o3);
    assert Run(o2, true, [Globals()[2]]) == Some(o3);
    assert Run(o1, true, Globals()[1..]) == Some(o3);
  }

  // NaN, Infinity and undefined keep their values over every run on the global object.
  lemma GlobalsConstant(calls: seq<Call>)
    requires Run(map[], true, Globals()).Some?
    requires Run(Run(map[], true, Globals()).value, true, calls).Some?
    ensures GlobalConstants(Run(Run(map[], true, Globals()).value, true, calls).value)
  {
    hide Run;
    GlobalsDefined();
    var o := Run(map[], true, Globals()).value;
    FrozenForever(o, true, calls, "NaN");
    FrozenForever(o, true, calls, "Infinity");
    FrozenForever(o, true, calls, "undefined");
  }

  // ---- Against section 8.12.9 of ECMA-262 5.1 ----

  // An accessor descriptor of the standard (section 8.10.1) has a getter or a setter.
  predicate StandardAccessor(d: Prop) { d.getter.Some? || d.setter.Some? }

  // A descriptor of which the standard makes an accessor, and the code a generic one.
  predicate SetterOnly(d: Prop) { d.setter.Some? && d.getter.None? && !IsData(d) }

  // No descriptor is of both kinds: section 8.10.5 refuses to make one.
  predicate OneKind(d: Prop) { !(IsData(d) && StandardAccessor(d)) }

  // Whether every field of `d` is in `p` with the same value (steps 5 and 6).
  predicate Subsumed(p: Prop, d: Prop) {
    Updated(p, d) == p
  }

  function StandardCreated(d: Prop): Prop {
    var c := d.(enumerable := OrElse(d.enumerable, Some(false)), configurable := OrElse(d.configurable, Some(false)));
    if StandardAccessor(d) then
      c.(getter := OrElse(d.getter, Some(Undefined)), setter := OrElse(d.setter, Some(Undefined)))
    else
      c.(value := OrElse(d.value, Some(Undefined)), writable := OrElse(d.writable, Some(false)))
  }

  // The standard's algorithm; what it answers when it does not throw. A property that changes
  // its kind keeps `configurable` and `enumerable` and starts with the other defaults (step 9).
  function StandardDefine(current: Option<Prop>, extensible: bool, d: Prop): Outcome {
    if current.None? then
      if extensible then Done(true, Some(StandardCreated(d))) else Done(false, None)
    else
      var p := current.value;
      var fixed := p.configurable == Some(false);
      if Subsumed(p, d) then Done(true, current)
      else if fixed && (d.configurable == Some(true) || (d.enumerable.Some? && d.enumerable != p.enumerable)) then
        Done(false, current)
      else if !IsData(d) && !StandardAccessor(d) then Done(true, Some(Updated(p, d)))
      else if IsData(p) != IsData(d) then
        if fixed then Done(false, current)
        else
          Done(true, Some(StandardCreated(d.(enumerable := OrElse(d.enumerable, p.enumerable),
                                             configurable := OrElse(d.configurable, p.configurable)))))
      else if fixed && IsData(p) && p.writable == Some(false)
              && (d.writable == Some(true) || (d.value.Some? && d.value != p.value)) then Done(false, current)
      else if fixed && !IsData(p) && !KeepsAccessors(p, d) then Done(false, current)
      else Done(true, Some(Updated(p, d)))
  }

  predicate KeepsAccessors(p: Prop, d: Prop) {
    (d.getter.Some? ==> d.getter == p.getter) && (d.setter.Some? ==> d.setter == p.setter)
  }

  // A stored property of one kind.
  predicate Pure(p: Prop) { Complete(p) && OneKind(p) }

  // Where the code parts from the standard.
  predicate Parts(current: Option<Prop>, extensible: bool, d: Prop) {
    if current.None? then extensible && SetterOnly(d)
    else
      var p := current.value;
      if IsData(p) && StandardAccessor(d) then
        // A change of kind halts the program; a lone setter is stored beside the data instead.
        p.configurable == Some(true) || (SetterOnly(d) && d.configurable != Some(true) && d.enumerable == p.enumerable)
      else if !IsData(p) && IsData(d) then p.configurable == Some(true)
      else
        p.configurable == Some(false) && d != EMPTY && d.configurable != Some(true)
        && if d.enumerable.None? then
             // Refused because `enumerable` is absent; the standard would look at the rest.
             if IsData(p) then
               p.writable == Some(true) || (d.writable != Some(true) && (d.value.None? || d.value == p.value))
             else KeepsAccessors(p, d)
           else
             // Halted on a fixed value or getter, or stored a setter that is fixed.
             d.enumerable == p.enumerable
             && if IsData(p) then !IsGeneric(d) && p.writable == Some(false) && d.writable != Some(true)
                else d.getter.Some? || (d.setter.Some? && d.setter != p.setter)
  }

  lemma DefineIsStandardIff(current: Option<Prop>, extensible: bool, d: Prop)
    requires (current.Some? ==> Pure(current.value)) && OneKind(d)
    ensures Define(current, extensible, d, false) == StandardDefine(current, extensible, d)
      <==> !Parts(current, extensible, d)
  {
    if current.Some? {
      if IsData(current.value) {
        DataIsStandardIff(current.value, extensible, d);
      } else {
        AccessorIsStandardIff(current.value, extensible, d);
      }
    }
  }

  lemma Absent(d: Prop)
    ensures d == EMPTY <==> !IsData(d) && !StandardAccessor(d) && d.enumerable.None? && d.configurable.None?
  {}

  lemma DataIsStandardIff(p: Prop, extensible: bool, d: Prop)
    requires Pure(p) && IsData(p) && OneKind(d)
    ensures Define(Some(p), extensible, d, false) == StandardDefine(Some(p), extensible, d)
      <==> !Parts(Some(p), extensible, d)
  {
    Flag(p.writable);
    Flag(p.configurable);
    Flag(d.writable);
    Flag(d.configurable);
    Flag(d.enumerable);
    Absent(d);
  }

  lemma AccessorIsStandardIff(p: Prop, extensible: bool, d: Prop)
    requires Pure(p) && !IsData(p) && OneKind(d)
    ensures Define(Some(p), extensible, d, false) == StandardDefine(Some(p), extensible, d)
      <==> !Parts(Some(p), extensible, d)
  {
    Flag(p.configurable);
    Flag(d.configurable);
    Flag(d.enumerable);
    Absent(d);
  }

  // The lone setter on a frozen property: the code answers true and stores it, where step 9
  // of the standard rejects the change of kind.
  lemma SetterOnFrozen(p: Prop, extensible: bool, s: Data)
    requires Pure(p) && Frozen(p)
    ensures var d := EMPTY.(setter := Some(s), enumerable := p.enumerable);
      Define(Some(p), extensible, d, true) == Done(true, Some(p.(setter := Some(s))))
      && StandardDefine(Some(p), extensible, d) == Done(false, Some(p))
  {}

  // An assignment to an own data property takes effect exactly when the property is
  // writable and configurable too; the standard asks only for writable (section 8.12.5).
  lemma PutWritesIff(p: Prop, up: Inherited, extensible: bool, v: Data)
    requires Complete(p) && IsData(p) && p.getter.None?
    ensures Put(Some(p), up, extensible, v, false) == Done(true, Some(p.(value := Some(v))))
      <==> p.writable == Some(true) && p.configurable == Some(true)
    ensures !(p.writable == Some(true) && p.configurable == Some(true))
      ==> Put(Some(p), up, extensible, v, false) == Done(false, Some(p))
  {}

  // What an assignment creates: a property that may be written, listed and removed.
  function Assigned(v: Data): Prop {
    Prop(Some(v), None, None, Some(true), Some(true), Some(true))
  }

  // The prototype's own property is the one that its lookup finds first.
  predicate Consistent(up: Inherited) {
    up.Prototype? && up.near.Some? ==> up.deep == up.near
  }

  // An assignment to a key that the object does not have. With nothing inherited it depends on
  // `extensible` alone, with inherited data on its `writable` too; an inherited setter is never
  // called: the prototype's own halts the program, and one further up is passed over.
  lemma PutCreates(up: Inherited, extensible: bool, v: Data, throw: bool)
    requires Consistent(up)
    ensures var refused := if throw then Halt else Done(false, None);
      Put(None, up, extensible, v, throw) ==
        if up.NoPrototype? || up.deep.None? then
          if extensible then Done(true, Some(Assigned(v))) else refused
        else if up.deep.value.getter.None? then
          if extensible && up.deep.value.writable == Some(true) then Done(true, Some(Assigned(v))) else refused
        else if up.deep.value.setter.None? then refused
        else if up.near.Some? then Halt
        else if extensible then Done(true, Some(Assigned(v))) else refused
  {}

  // An assignment to an own accessor is refused, since the setter's test is the wrong way round:
  // every stored accessor has one.
  lemma PutOnAccessor(p: Prop, up: Inherited, extensible: bool, v: Data, throw: bool)
    requires Complete(p) && !IsData(p)
    ensures Put(Some(p), up, extensible, v, throw) == if throw then Halt else Done(false, Some(p))
  {}

  // What was created by an assignment can be assigned to again, and removed.
  lemma CreatedIsOpen(o: Props, k: Key, v: Data, w: Data, up: Inherited, throw: bool)
    requires k !in o
    ensures var put, again := CallPut(k, NoPrototype, v, throw), CallPut(k, up, w, throw);
      && Run(o, true, [put]) == Some(o[k := Assigned(v)])
      && Run(o, true, [put, again]) == Some(o[k := Assigned(w)])
      && Run(o, true, [put, again, CallDelete(k, throw)]) == Some(o)
  {
    hide Run, Put;
    var put, again, delete := CallPut(k, NoPrototype, v, throw), CallPut(k, up, w, throw), CallDelete(k, throw);
    var o1, o2 := o[k := Assigned(v)], o[k := Assigned(w)];
    PutCreates(NoPrototype, true, v, throw);
    RunOne(o, [put]);
    RunOne(o, [put, again]);
    RunOne(o, [put, again, delete]);
    assert [put, again][1..] == [again] && [put, again, delete][1..] == [again, delete];
    PutAgain(v, w, up, throw);
    assert o1[k := Assigned(w)] == o2;
    RunOne(o1, [again]);
    RunOne(o1, [again, delete]);
    assert [again, delete][1..] == [delete];
    RunOne(o2, [delete]);
    assert Effect(o2, true, delete) == Done(true, None) && Store(o2, k, None) == o && [delete][1..] == [];
    RunNone(o);
    RunNone(o1);
    RunNone(o2);
  }

  lemma PutAgain(v: Data, w: Data, up: Inherited, throw: bool)
    ensures Put(Some(Assigned(v)), up, true, w, throw) == Done(true, Some(Assigned(w)))
  {}

  lemma RunOne(o: Props, calls: seq<Call>)
    requires calls != []
    ensures var e := Effect(o, true, calls[0]);
      Run(o, true, calls) == if e.Halt? then None else Run(Store(o, calls[0].key, e.now), true, calls[1..])
  {}

  lemma RunNone(o: Props)
    ensures Run(o, true, []) == Some(o)
  {}

  // With `throw`, every refusal halts instead; nothing else depends on it.
  lemma ThrowOnlyHalts(own: Option<Prop>, up: Inherited, extensible: bool, v: Data, d: Prop)
    ensures Define(own, extensible, d, true) == Thrown(Define(own, extensible, d, false))
    ensures Put(own, up, extensible, v, true) == Thrown(Put(own, up, extensible, v, false))
    ensures Delete(own, true) == Thrown(Delete(own, false))
  {}

  function Thrown(e: Outcome): Outcome {
    if e.Done? && !e.ok then Halt else e
  }

  // Where the code parts from the standard on an existing property: a change of kind, or a call
  // on a fixed property that is neither refused for its attributes nor generic, halts; a
  // descriptor without `enumerable` is refused on a fixed property; a lone setter is stored.
  lemma PartsMeans(p: Prop, extensible: bool, d: Prop)
    requires Pure(p) && OneKind(d) && Parts(Some(p), extensible, d)
    ensures Define(Some(p), extensible, d, false) ==
      if SetterOnly(d) && (p.configurable == Some(true) || d.enumerable == p.enumerable) then
        Done(true, Some(Updated(p, d)))
      else if p.configurable == Some(false) && d.enumerable.None? then Done(false, Some(p))
      else Halt
  {
    Flag(p.configurable);
    Flag(d.configurable);
    Absent(d);
  }

  // Deleting removes exactly what is configurable; what was never there counts as removed.
  lemma DeleteRemovesIff(o: Props, extensible: bool, k: Key)
    ensures var e := Effect(o, extensible, CallDelete(k, false));
      e.Done? && (e.ok <==> k !in Store(o, k, e.now)) && (e.ok <==> k !in o || o[k].configurable == Some(true))
      && forall j :: j != k ==> Own(Store(o, k, e.now), j) == Own(o, j)
  {}

  // ---- The object ----

  class JsObject {
    var properties: Props
    var prototype: JsObject?
    var extensible: bool

    constructor ()
      ensures properties == map[] && prototype == null && extensible
    {
      properties := map[];
      prototype := null;
      extensible := true;
    }

    method GetOwnProperty(k: Key) returns (r: Option<Prop>)
      ensures r == Own(properties, k)
    {
      r := if k in properties then Some(properties[k]) else None;
    }

    // The object's own property or its prototype's, not further up.
    ghost function Found(k: Key): Option<Prop>
      reads this, prototype
    {
      if k in properties then Some(properties[k])
      else if prototype == null then None else Own(prototype.properties, k)
    }

    method GetProperty(k: Key) returns (r: Option<Prop>)
      ensures r == Found(k)
    {
      r := GetOwnProperty(k);
      if r.None? && prototype != null {
        r := prototype.GetOwnProperty(k);
      }
    }

    ghost function Up(k: Key): Inherited
      reads this, prototype, if prototype == null then {} else {prototype.prototype}
    {
      if prototype == null then NoPrototype
      else Prototype(prototype.Found(k), Own(prototype.properties, k))
    }

    method CanPutKey(k: Key) returns (r: bool)
      ensures r == CanPut(Own(properties, k), Up(k), extensible)
    {
      var desc := GetOwnProperty(k);
      if desc.Some? {
        if IsAccessor(desc.value) {
          return desc.value.setter.None?;
        }
        return desc.value.writable == Some(true);
      }
      if prototype == null { return extensible; }
      var inherited := prototype.GetProperty(k);
      if inherited.None? { return extensible; }
      if IsAccessor(inherited.value) { return inherited.value.setter.Some?; }
      if !extensible { return false; }
      return inherited.value.writable == Some(true);
    }

    // The result and the new properties are those of `e`; None is a halt, which leaves
    // everything as it was.
    twostate predicate Became(k: Key, new e: Outcome, new r: Option<bool>)
      reads this
    {
      extensible == old(extensible) && prototype == old(prototype)
      && match e
         case Halt => r.None? && properties == old(properties)
         case Done(ok, now) => r == Some(ok) && properties == Store(old(properties), k, now)
    }

    method DefineOwnProperty(k: Key, d: Prop, throw: bool) returns (r: Option<bool>)
      modifies this`properties
      ensures Became(k, Define(Own(old(properties), k), extensible, d, throw), r)
    {
      var current := GetOwnProperty(k);
      SameStore(properties, k);
      if current.None? && !extensible {
        return if throw then None else Some(false);
      }
      if current.None? && extensible {
        var desc := d;
        if IsGeneric(desc) || IsData(desc) {
          if desc.value.None? { desc := desc.(value := Some(Undefined)); }
          if desc.writable.None? { desc := desc.(writable := Some(false)); }
          if desc.enumerable.None? { desc := desc.(enumerable := Some(false)); }
          if desc.configurable.None? { desc := desc.(configurable := Some(false)); }
        } else {
          if desc.getter.None? { desc := desc.(getter := Some(Undefined)); }
          if desc.setter.None? { desc := desc.(setter := Some(Undefined)); }
          if desc.enumerable.None? { desc := desc.(enumerable := Some(false)); }
          if desc.configurable.None? { desc := desc.(configurable := Some(false)); }
        }
        assert desc == Completed(d);
        properties := properties[k := desc];
        return Some(true);
      }
      if d.value.None? && d.getter.None? && d.setter.None? && d.writable.None? && d.enumerable.None? && d.configurable.None? {
        return Some(true);
      }
      var p := current.value;
      if p.configurable != Some(true) {
        if d.configurable == Some(true) {
          return if throw then None else Some(false);
        } else if d.enumerable != p.enumerable {
          return if throw then None else Some(false);
        }
      }
      if !IsGeneric(d) {
        if IsData(p) != IsData(d) {
          if p.configurable != Some(true) {
            return if throw then None else Some(false);
          }
          return None;
        } else if IsData(p) && IsData(d) {
          if p.configurable != Some(true) {
            if p.writable != Some(true) && d.writable == Some(true) {
              return if throw then None else Some(false);
            } else if p.writable != Some(true) {
              return None;
            }
          }
        } else {
          if p.configurable != Some(true) { return None; }
        }
      }
      if d.value.Some? { p := p.(value := d.value); }
      if d.getter.Some? { p := p.(getter := d.getter); }
      if d.setter.Some? { p := p.(setter := d.setter); }
      if d.writable.Some? { p := p.(writable := d.writable); }
      if d.enumerable.Some? { p := p.(enumerable := d.enumerable); }
      if d.configurable.Some? { p := p.(configurable := d.configurable); }
      assert p == Updated(current.value, d);
      properties := properties[k := p];
      return Some(true);
    }

    // The source returns nothing here; `r` tells what the last step answered.
    method PutKey(k: Key, v: Data, throw: bool) returns (r: Option<bool>)
      modifies this`properties
      ensures Became(k, Put(Own(old(properties), k), old(Up(k)), extensible, v, throw), r)
    {
      SameStore(properties, k);
      var can := CanPutKey(k);
      if !can {
        return if throw then None else Some(false);
      }
      var own := GetOwnProperty(k);
      if own.Some? && IsData(own.value) {
        r := DefineOwnProperty(k, EMPTY.(value := Some(v)), throw);
        return;
      }
      var desc := GetProperty(k);
      if desc.Some? && IsAccessor(desc.value) {
        return None;
      }
      r := DefineOwnProperty(k, Prop(Some(v), None, None, Some(true), Some(true), Some(true)), throw);
    }

    method DeleteKey(k: Key, throw: bool) returns (r: Option<bool>)
      modifies this`properties
      ensures Became(k, Delete(Own(old(properties), k), throw), r)
    {
      SameStore(properties, k);
      var desc := GetOwnProperty(k);
      if desc.None? { return Some(true); }
      if desc.value.configurable == Some(true) {
        properties := properties - {k};
        return Some(true);
      }
      return if throw then None else Some(false);
    }
  }

  lemma SameStore(o: Props, k: Key)
    ensures Store(o, k, Own(o, k)) == o
  {}
}
