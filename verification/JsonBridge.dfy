/** The untyped JSON-to-Hessian converter and the Hessian-to-JSON writer of the Dubbo bridge, and the
    sense in which they undo each other. */
module JsonBridge {
  import opened Common
  import opened Hessian

  /** The integers a JSON document can hold exactly: int64 and uint64. */
  type jsonInt = x: int | -0x8000_0000_0000_0000 <= x < 0x1_0000_0000_0000_0000

  /** A parsed JSON document: members keep their order and may repeat a name. */
  datatype Json =
    | JNull
    | JBool(b: bool)
    | JInt(n: jsonInt)
    | JDouble(d: real)
    | JString(s: string)
    | JArray(items: seq<Json>)
    | JObject(members: seq<Member>)

  datatype Member = Member(name: string, value: Json)

  /** What a JSON text means: member order and number representation are gone. */
  datatype Meaning =
    | MNull
    | MBool(b: bool)
    | MNumber(x: real)
    | MString(s: string)
    | MArray(items: seq<Meaning>)
    | MObject(members: map<string, Meaning>)

  const MAX_DEPTH: nat := 50

  /** `round` is the conversion of an integer above int64 to double. */
  type Rounding = int -> real

  // ------------------------------------------------------------------ JSON to Hessian

  function FromNumber(n: jsonInt, round: Rounding): Value {
    if -0x8000_0000 <= n < 0x8000_0000 then Integer(n)
    else if n < 0x8000_0000_0000_0000 then Long(n)
    else Double(round(n))
  }

  function FromJson(v: Json, ignoreNull: bool, depth: nat, round: Rounding): Value
    decreases v, 0
  {
    if depth >= MAX_DEPTH then Null
    else
      match v
      case JNull => Null
      case JBool(b) => Boolean(b)
      case JInt(n) => FromNumber(n, round)
      case JDouble(d) => Double(d)
      case JString(s) => Str(s)
      case JArray(items) =>
        UntypedList(seq(|items|, i requires 0 <= i < |items| => FromJson(items[i], ignoreNull, depth + 1, round)))
      case JObject(members) => UntypedMap(FromMembers(members, ignoreNull, depth + 1, round))
  }

  /** Members in document order; `emplace` keeps the entry that is already there. */
  function FromMembers(members: seq<Member>, ignoreNull: bool, depth: nat, round: Rounding): map<string, Value>
    decreases members, 0
  {
    if members == [] then map[]
    else
      var front := FromMembers(members[..|members| - 1], ignoreNull, depth, round);
      var last := members[|members| - 1];
      if ignoreNull && last.value.JNull? then front
      else Emplace(front, last.name, FromJson(last.value, ignoreNull, depth, round))
  }

  function Emplace<T>(m: map<string, T>, name: string, value: T): map<string, T> {
    if name in m then m else m[name := value]
  }

  // ------------------------------------------------------------------ meanings

  function Denote(v: Json, round: Rounding): (m: Meaning)
    ensures m.MNull? <==> v.JNull?
    decreases v, 0
  {
    match v
    case JNull => MNull
    case JBool(b) => MBool(b)
    case JInt(n) => MNumber(if n < 0x8000_0000_0000_0000 then n as real else round(n))
    case JDouble(d) => MNumber(d)
    case JString(s) => MString(s)
    case JArray(items) => MArray(seq(|items|, i requires 0 <= i < |items| => Denote(items[i], round)))
    case JObject(members) => MObject(DenoteMembers(members, round))
  }

  function DenoteMembers(members: seq<Member>, round: Rounding): map<string, Meaning>
    decreases members, 0
  {
    if members == [] then map[]
    else
      var last := members[|members| - 1];
      Emplace(DenoteMembers(members[..|members| - 1], round), last.name, Denote(last.value, round))
  }

  /** What a Hessian value means as JSON. */
  function MeaningOf(h: Value): Meaning
    decreases h, 1
  {
    match h
    case Null => MNull
    case Boolean(b) => MBool(b)
    case Integer(i) => MNumber(i as real)
    case Long(l) => MNumber(l as real)
    case Double(d) => MNumber(d)
    case Date(ms) => MNumber(ms as real)
    case Binary(bytes) => MString(bytes)
    case Str(s) => MString(s)
    case TypedList(elements) => MArray(seq(|elements|, i requires 0 <= i < |elements| => MeaningOf(elements[i])))
    case UntypedList(items) => MArray(seq(|items|, i requires 0 <= i < |items| => MeaningOf(items[i])))
    case TypedMap(fields) => MObject(map k | k in fields :: MeaningOf(fields[k]))
    case UntypedMap(entries) => MObject(map k | k in entries :: MeaningOf(entries[k]))
    case Instance(names, data) => if names.None? then MNull else MObject(FieldMeanings(names.value, data))
  }

  /** As many fields as there are names and values for; the first of a name counts. */
  function FieldMeanings(names: seq<string>, data: seq<Value>): map<string, Meaning>
    decreases data, 0
  {
    if names == [] || data == [] then map[]
    else FieldMeanings(names[1..], data[1..])[names[0] := MeaningOf(data[0])]
  }

  /** The document without its null members, at any depth, when those are to be dropped. */
  function Kept(v: Json, ignoreNull: bool): (r: Json)
    ensures r.JNull? <==> v.JNull?
    decreases v, 0
  {
    match v
    case JArray(items) => JArray(seq(|items|, i requires 0 <= i < |items| => Kept(items[i], ignoreNull)))
    case JObject(members) => JObject(KeptMembers(members, ignoreNull))
    case _ => v
  }

  function KeptMembers(members: seq<Member>, ignoreNull: bool): seq<Member>
    decreases members, 0
  {
    if members == [] then []
    else
      var front, last := KeptMembers(members[..|members| - 1], ignoreNull), members[|members| - 1];
      if Dropped(last, ignoreNull) then front else front + [Member(last.name, Kept(last.value, ignoreNull))]
  }

  predicate Dropped(m: Member, ignoreNull: bool) { ignoreNull && m.value.JNull? }

  /** Nothing is taken from a document whose null members stay. */
  lemma {:induction false} KeptAll(v: Json)
    ensures Kept(v, false) == v
    decreases v, 0
  {
    match v
    case JArray(items) =>
      forall i | 0 <= i < |items| ensures Kept(items[i], false) == items[i] { KeptAll(items[i]); }
    case JObject(members) => KeptAllMembers(members);
    case _ =>
  }

  lemma {:induction false} KeptAllMembers(members: seq<Member>)
    ensures KeptMembers(members, false) == members
    decreases members, 0
  {
    if members != [] {
      KeptAllMembers(members[..|members| - 1]);
      KeptAll(members[|members| - 1].value);
      assert members == members[..|members| - 1] + [members[|members| - 1]];
    }
  }

  /** Nothing but null from depth 50 on. */
  function Cut(m: Meaning, depth: nat): Meaning
    decreases m
  {
    if depth >= MAX_DEPTH then MNull
    else
      match m
      case MArray(items) => MArray(seq(|items|, i requires 0 <= i < |items| => Cut(items[i], depth + 1)))
      case MObject(ms) => MObject(map k | k in ms :: Cut(ms[k], depth + 1))
      case _ => m
  }

  // ------------------------------------------------------------------ JSON to Hessian keeps the meaning

  /** For every document, repeated names or not: drop null members if asked to, let the first member of a
      name win, and cut at depth 50. */
  lemma {:induction false} FromJsonMeaning(v: Json, ignoreNull: bool, depth: nat, round: Rounding)
    ensures MeaningOf(FromJson(v, ignoreNull, depth, round)) == Cut(Denote(Kept(v, ignoreNull), round), depth)
    decreases v, 0
  {
    if depth < MAX_DEPTH {
      match v
      case JArray(items) => FromItemsMeaning(items, ignoreNull, depth, round, v);
      case JObject(members) =>
        FromMembersMeaning(members, ignoreNull, depth + 1, round);
        FromObjectMeaning(members, ignoreNull, depth, round);
      case _ => FromScalarMeaning(v, ignoreNull, depth, round);
    } else {
      assert FromJson(v, ignoreNull, depth, round) == Null;
    }
  }

  lemma {:induction false} FromScalarMeaning(v: Json, ignoreNull: bool, depth: nat, round: Rounding)
    requires depth < MAX_DEPTH && !v.JArray? && !v.JObject?
    ensures MeaningOf(FromJson(v, ignoreNull, depth, round)) == Cut(Denote(Kept(v, ignoreNull), round), depth)
  {
  }

  lemma {:induction false} FromItemsMeaning(items: seq<Json>, ignoreNull: bool, depth: nat, round: Rounding, v: Json)
    requires depth < MAX_DEPTH && v == JArray(items)
    ensures MeaningOf(FromJson(v, ignoreNull, depth, round)) == Cut(Denote(Kept(v, ignoreNull), round), depth)
    decreases v, 0, 0
  {
    forall i | 0 <= i < |items|
      ensures MeaningOf(FromJson(items[i], ignoreNull, depth + 1, round))
           == Cut(Denote(Kept(items[i], ignoreNull), round), depth + 1)
    {
      FromJsonMeaning(items[i], ignoreNull, depth + 1, round);
    }
  }

  lemma FromObjectMeaning(members: seq<Member>, ignoreNull: bool, depth: nat, round: Rounding)
    requires depth < MAX_DEPTH
    requires MeaningsOf(FromMembers(members, ignoreNull, depth + 1, round))
          == CutAll(DenoteMembers(KeptMembers(members, ignoreNull), round), depth + 1)
    ensures MeaningOf(FromJson(JObject(members), ignoreNull, depth, round))
         == Cut(Denote(Kept(JObject(members), ignoreNull), round), depth)
  {
    var m := DenoteMembers(KeptMembers(members, ignoreNull), round);
    assert Cut(MObject(m), depth).members == CutAll(m, depth + 1);
    assert MeaningOf(FromJson(JObject(members), ignoreNull, depth, round)).members
        == MeaningsOf(FromMembers(members, ignoreNull, depth + 1, round));
  }

  function MeaningsOf(h: map<string, Value>): map<string, Meaning> {
    map k | k in h :: MeaningOf(h[k])
  }

  function CutAll(m: map<string, Meaning>, depth: nat): map<string, Meaning> {
    map k | k in m :: Cut(m[k], depth)
  }

  lemma EmplaceMeaning(h: map<string, Value>, name: string, value: Value)
    ensures MeaningsOf(Emplace(h, name, value)) == Emplace(MeaningsOf(h), name, MeaningOf(value))
  {
  }

  lemma EmplaceCut(m: map<string, Meaning>, name: string, value: Meaning, depth: nat)
    ensures CutAll(Emplace(m, name, value), depth) == Emplace(CutAll(m, depth), name, Cut(value, depth))
  {
  }

  lemma {:induction false} FromMembersMeaning(members: seq<Member>, ignoreNull: bool, depth: nat, round: Rounding)
    ensures MeaningsOf(FromMembers(members, ignoreNull, depth, round))
         == CutAll(DenoteMembers(KeptMembers(members, ignoreNull), round), depth)
    decreases members, 0
  {
    if members != [] {
      var front, last := members[..|members| - 1], members[|members| - 1];
      FromMembersMeaning(front, ignoreNull, depth, round);
      if !Dropped(last, ignoreNull) {
        FromJsonMeaning(last.value, ignoreNull, depth, round);
        var kept, one := KeptMembers(front, ignoreNull), Member(last.name, Kept(last.value, ignoreNull));
        EmplaceMeaning(FromMembers(front, ignoreNull, depth, round), last.name,
                       FromJson(last.value, ignoreNull, depth, round));
        EmplaceCut(DenoteMembers(kept, round), last.name, Denote(one.value, round), depth);
        DenoteAppend(kept, one, round);
      }
    }
  }

  lemma DenoteAppend(members: seq<Member>, m: Member, round: Rounding)
    ensures DenoteMembers(members + [m], round)
      == Emplace(DenoteMembers(members, round), m.name, Denote(m.value, round))
  {
    assert (members + [m])[..|members|] == members;
  }

  // ------------------------------------------------------------------ the writer and its reader

  /** Where a value stands in the document being written. */
  type Position = seq<nat>

  function Below(at: Position, n: nat): Position { at + [n] }

  /** The iteration orders of all hash maps of a document: for the map at each position any listing of
      its keys, each once. Equal maps at different positions may be listed differently. */
  type Order = (Position, map<string, Value>) -> seq<string>

  ghost predicate Enumerates(names: seq<string>, m: map<string, Value>) {
    && (forall k :: k in names <==> k in m)
    && (forall i, j :: 0 <= i < j < |names| ==> names[i] != names[j])
  }

  ghost predicate IsOrder(order: Order) {
    forall at, m :: Enumerates(order(at, m), m)
  }

  predicate IsMap(h: Value) { h.TypedMap? || h.UntypedMap? }

  function Entries(h: Value): map<string, Value>
    requires IsMap(h)
  {
    if h.TypedMap? then h.fields else h.entries
  }

  ghost function Names(h: Value, order: Order, at: Position): (names: seq<string>)
    requires IsMap(h) && IsOrder(order)
    ensures forall k :: k in names <==> k in Entries(h)
  {
    assert Enumerates(order(at, Entries(h)), Entries(h));
    order(at, Entries(h))
  }

  /** The calls `hessianValueToJsonStringInternal` makes on the writer. */
  ghost function Emit(h: Value, order: Order, at: Position): seq<Event>
    requires IsOrder(order)
    decreases h, 1, 0
  {
    match h
    case Null => [WriteNull]
    case Boolean(b) => [WriteBool(b)]
    case Integer(i) => [WriteInt(i)]
    case Long(l) => [WriteInt(l)]
    case Double(d) => [WriteDouble(d)]
    case Date(ms) => [WriteInt(ms)]
    case Binary(bytes) => [WriteString(bytes)]
    case Str(s) => [WriteString(s)]
    case TypedList(elements) => [StartArray] + EmitItems(elements, order, at) + [EndArray]
    case UntypedList(items) => [StartArray] + EmitItems(items, order, at) + [EndArray]
    case TypedMap(_) => [StartObject] + EmitMembers(h, Names(h, order, at), order, at) + [EndObject]
    case UntypedMap(_) => [StartObject] + EmitMembers(h, Names(h, order, at), order, at) + [EndObject]
    case Instance(names, data) =>
      if names.None? then [WriteNull] else [StartObject] + EmitFields(names.value, data, order, at) + [EndObject]
  }

  ghost function EmitFields(names: seq<string>, data: seq<Value>, order: Order, at: Position): seq<Event>
    requires IsOrder(order)
    decreases data, 0, 0
  {
    if names == [] || data == [] then []
    else
      [WriteString(names[0])] + Emit(data[0], order, Below(at, |data|))
      + EmitFields(names[1..], data[1..], order, at)
  }

  /** A child's position is its container's and the number of children still to come. */
  ghost function EmitItems(items: seq<Value>, order: Order, at: Position): seq<Event>
    requires IsOrder(order)
    decreases items, 0, 0
  {
    if items == [] then []
    else Emit(items[0], order, Below(at, |items|)) + EmitItems(items[1..], order, at)
  }

  ghost function EmitMembers(h: Value, names: seq<string>, order: Order, at: Position): seq<Event>
    requires IsOrder(order) && IsMap(h)
    requires forall k :: k in names ==> k in Entries(h)
    decreases h, 0, |names|
  {
    if names == [] then []
    else
      [WriteString(names[0])] + Emit(Entries(h)[names[0]], order, Below(at, |names|))
      + EmitMembers(h, names[1..], order, at)
  }

  type Parsed<T> = Option<(T, seq<Event>)>

  /** A reader of writer calls: the value they spell and what is left over. */
  function Read(ev: seq<Event>): (r: Parsed<Meaning>)
    ensures r.Some? ==> |r.value.1| < |ev|
    decreases |ev|, 1
  {
    if ev == [] then None
    else
      match ev[0]
      case WriteNull => Some((MNull, ev[1..]))
      case WriteBool(b) => Some((MBool(b), ev[1..]))
      case WriteInt(n) => Some((MNumber(n as real), ev[1..]))
      case WriteDouble(d) => Some((MNumber(d), ev[1..]))
      case WriteString(s) => Some((MString(s), ev[1..]))
      case StartArray =>
        (match ReadItems(ev[1..])
         case Some((items, rest)) => Some((MArray(items), rest))
         case None => None)
      case StartObject =>
        (match ReadMembers(ev[1..])
         case Some((members, rest)) => Some((MObject(members), rest))
         case None => None)
      case _ => None
  }

  function ReadItems(ev: seq<Event>): (r: Parsed<seq<Meaning>>)
    ensures r.Some? ==> |r.value.1| < |ev|
    decreases |ev|, 2
  {
    if ev == [] then None
    else if ev[0].EndArray? then Some(([], ev[1..]))
    else
      match Read(ev)
      case None => None
      case Some((first, rest)) =>
        match ReadItems(rest)
        case None => None
        case Some((items, left)) => Some(([first] + items, left))
  }

  function ReadMembers(ev: seq<Event>): (r: Parsed<map<string, Meaning>>)
    ensures r.Some? ==> |r.value.1| < |ev|
    decreases |ev|, 2
  {
    if ev == [] then None
    else if ev[0].EndObject? then Some((map[], ev[1..]))
    else if !ev[0].WriteString? then None
    else
      match Read(ev[1..])
      case None => None
      case Some((value, rest)) =>
        match ReadMembers(rest)
        case None => None
        case Some((members, left)) => Some((members[ev[0].s := value], left))
  }

  /** Whatever the order of its maps, what is written for a value reads back as its meaning. */
  lemma {:induction false} ReadEmit(h: Value, order: Order, at: Position, rest: seq<Event>)
    requires IsOrder(order)
    ensures Emit(h, order, at) != [] && !Emit(h, order, at)[0].EndArray?
    ensures Read(Emit(h, order, at) + rest) == Some((MeaningOf(h), rest))
    decreases h, 1, 0
  {
    match h
    case TypedList(elements) => ReadEmitArray(elements, order, at, rest);
    case UntypedList(items) => ReadEmitArray(items, order, at, rest);
    case TypedMap(_) => ReadEmitObject(h, order, at, rest);
    case UntypedMap(_) => ReadEmitObject(h, order, at, rest);
    case Instance(Some(names), data) => ReadEmitInstance(names, data, order, at, rest);
    case _ => assert (Emit(h, order, at) + rest)[1..] == rest;
  }

  lemma {:induction false} ReadEmitArray(items: seq<Value>, order: Order, at: Position, rest: seq<Event>)
    requires IsOrder(order)
    ensures Read([StartArray] + EmitItems(items, order, at) + [EndArray] + rest)
         == Some((MArray(ItemMeanings(items)), rest))
    decreases items, 0, 1
  {
    var ev := [StartArray] + EmitItems(items, order, at) + [EndArray] + rest;
    ReadEmitItems(items, order, at, rest);
    assert ev[1..] == EmitItems(items, order, at) + ([EndArray] + rest);
  }

  lemma {:induction false} ReadEmitInstance(names: seq<string>, data: seq<Value>, order: Order, at: Position,
                                            rest: seq<Event>)
    requires IsOrder(order)
    ensures Read([StartObject] + EmitFields(names, data, order, at) + [EndObject] + rest)
         == Some((MObject(FieldMeanings(names, data)), rest))
    decreases data, 0, 1
  {
    var ev := [StartObject] + EmitFields(names, data, order, at) + [EndObject] + rest;
    ReadEmitFields(names, data, order, at, rest);
    assert ev[1..] == EmitFields(names, data, order, at) + ([EndObject] + rest);
  }

  function ItemMeanings(items: seq<Value>): (ms: seq<Meaning>)
    ensures |ms| == |items|
  {
    seq(|items|, i requires 0 <= i < |items| => MeaningOf(items[i]))
  }

  lemma {:induction false} ItemMeaningsStep(items: seq<Value>)
    requires items != []
    ensures ItemMeanings(items) == [MeaningOf(items[0])] + ItemMeanings(items[1..])
  {
  }

  lemma {:induction false} EmitItemsStep(items: seq<Value>, order: Order, at: Position, tail: seq<Event>)
    requires IsOrder(order) && items != []
    ensures EmitItems(items, order, at) + tail
         == Emit(items[0], order, Below(at, |items|)) + (EmitItems(items[1..], order, at) + tail)
  {
  }

  lemma ReadItemsStep(ev: seq<Event>, first: Meaning, more: seq<Event>, items: seq<Meaning>, left: seq<Event>)
    requires ev != [] && !ev[0].EndArray?
    requires Read(ev) == Some((first, more)) && ReadItems(more) == Some((items, left))
    ensures ReadItems(ev) == Some(([first] + items, left))
  {
  }

  lemma {:induction false} ReadEmitItems(items: seq<Value>, order: Order, at: Position, rest: seq<Event>)
    requires IsOrder(order)
    ensures ReadItems(EmitItems(items, order, at) + ([EndArray] + rest)) == Some((ItemMeanings(items), rest))
    decreases items, 0, 0
  {
    var tail := [EndArray] + rest;
    if items == [] {
      assert EmitItems(items, order, at) + tail == tail && tail[1..] == rest;
      assert ItemMeanings(items) == [];
    } else {
      var first, more := Emit(items[0], order, Below(at, |items|)), EmitItems(items[1..], order, at) + tail;
      ReadEmit(items[0], order, Below(at, |items|), more);
      ReadEmitItems(items[1..], order, at, rest);
      EmitItemsStep(items, order, at, tail);
      ReadItemsStep(first + more, MeaningOf(items[0]), more, ItemMeanings(items[1..]), rest);
      ItemMeaningsStep(items);
    }
  }

  lemma ReadMembersStep(ev: seq<Event>, value: Meaning, more: seq<Event>, members: map<string, Meaning>,
                        left: seq<Event>)
    requires ev != [] && ev[0].WriteString?
    requires Read(ev[1..]) == Some((value, more)) && ReadMembers(more) == Some((members, left))
    ensures ReadMembers(ev) == Some((members[ev[0].s := value], left))
  {
  }

  lemma Reassociate(e: Event, a: seq<Event>, b: seq<Event>, c: seq<Event>)
    ensures ([e] + a + b + c)[0] == e && ([e] + a + b + c)[1..] == a + (b + c)
  {
  }

  function MemberMeanings(h: Value, names: seq<string>): map<string, Meaning>
    requires IsMap(h)
    requires forall k :: k in names ==> k in Entries(h)
  {
    map k | k in names :: MeaningOf(Entries(h)[k])
  }

  lemma MemberMeaningsStep(h: Value, names: seq<string>)
    requires IsMap(h) && names != []
    requires forall k :: k in names ==> k in Entries(h)
    ensures MemberMeanings(h, names) == MemberMeanings(h, names[1..])[names[0] := MeaningOf(Entries(h)[names[0]])]
  {
    assert names == [names[0]] + names[1..];
  }

  lemma {:induction false} ReadEmitObject(h: Value, order: Order, at: Position, rest: seq<Event>)
    requires IsOrder(order) && IsMap(h)
    ensures Read([StartObject] + EmitMembers(h, Names(h, order, at), order, at) + [EndObject] + rest)
         == Some((MeaningOf(h), rest))
    decreases h, 0, |Names(h, order, at)| + 1
  {
    var names := Names(h, order, at);
    ReadEmitMembers(h, names, order, at, rest);
    var ev := [StartObject] + EmitMembers(h, names, order, at) + [EndObject] + rest;
    assert ev[1..] == EmitMembers(h, names, order, at) + ([EndObject] + rest);
    assert MeaningOf(h).members == MemberMeanings(h, names);
  }

  lemma {:induction false} ReadEmitMembers(h: Value, names: seq<string>, order: Order, at: Position, rest: seq<Event>)
    requires IsOrder(order) && IsMap(h)
    requires forall k :: k in names ==> k in Entries(h)
    ensures ReadMembers(EmitMembers(h, names, order, at) + ([EndObject] + rest))
      == Some((MemberMeanings(h, names), rest))
    decreases h, 0, |names|
  {
    var tail := [EndObject] + rest;
    if names == [] {
      assert EmitMembers(h, names, order, at) + tail == tail && tail[1..] == rest;
    } else {
      var value := Entries(h)[names[0]];
      var more := EmitMembers(h, names[1..], order, at) + tail;
      var ev := EmitMembers(h, names, order, at) + tail;
      ReadEmit(value, order, Below(at, |names|), more);
      ReadEmitMembers(h, names[1..], order, at, rest);
      Reassociate(WriteString(names[0]), Emit(value, order, Below(at, |names|)),
                  EmitMembers(h, names[1..], order, at), tail);
      ReadMembersStep(ev, MeaningOf(value), more, MemberMeanings(h, names[1..]), rest);
      MemberMeaningsStep(h, names);
    }
  }

  lemma {:induction false} ReadEmitFields(names: seq<string>, data: seq<Value>, order: Order, at: Position,
                                          rest: seq<Event>)
    requires IsOrder(order)
    ensures ReadMembers(EmitFields(names, data, order, at) + ([EndObject] + rest))
         == Some((FieldMeanings(names, data), rest))
    decreases data, 0, 0
  {
    var tail := [EndObject] + rest;
    if names == [] || data == [] {
      assert EmitFields(names, data, order, at) + tail == tail && tail[1..] == rest;
    } else {
      var value, more := data[0], EmitFields(names[1..], data[1..], order, at) + tail;
      var ev := EmitFields(names, data, order, at) + tail;
      ReadEmit(value, order, Below(at, |data|), more);
      ReadEmitFields(names[1..], data[1..], order, at, rest);
      Reassociate(WriteString(names[0]), Emit(value, order, Below(at, |data|)),
                  EmitFields(names[1..], data[1..], order, at), tail);
      ReadMembersStep(ev, MeaningOf(value), more, FieldMeanings(names[1..], data[1..]), rest);
    }
  }

  // ------------------------------------------------------------------ both directions together

  /** With null members kept, only the cut at depth 50 is left of the difference. */
  lemma JsonRoundTripKeepingNulls(v: Json, round: Rounding, order: Order)
    requires IsOrder(order)
    ensures Read(Emit(FromJson(v, false, 0, round), order, [])) == Some((Cut(Denote(v, round), 0), []))
  {
    JsonRoundTrip(v, false, round, order);
    KeptAll(v);
  }

  /** JSON to Hessian and back, for every document and every hash order: null members dropped if asked
      to, everything from depth 50 on null. */
  lemma JsonRoundTrip(v: Json, ignoreNull: bool, round: Rounding, order: Order)
    requires IsOrder(order)
    ensures Read(Emit(FromJson(v, ignoreNull, 0, round), order, []))
         == Some((Cut(Denote(Kept(v, ignoreNull), round), 0), []))
  {
    var h := FromJson(v, ignoreNull, 0, round);
    ReadEmit(h, order, [], []);
    assert Emit(h, order, []) + [] == Emit(h, order, []);
    FromJsonMeaning(v, ignoreNull, 0, round);
  }

  // ------------------------------------------------------------------ when nothing is lost

  /** Member `i` is the one its name stands for. */
  predicate FirstNamed(ms: seq<Member>, i: nat)
    requires i < |ms|
  {
    forall j :: 0 <= j < i ==> ms[j].name != ms[i].name
  }

  /** Member `i` is the one its name stands for once null members are dropped. */
  predicate FirstKept(ms: seq<Member>, ignoreNull: bool, i: nat)
    requires i < |ms|
  {
    !Dropped(ms[i], ignoreNull) && forall j :: 0 <= j < i && ms[j].name == ms[i].name ==> Dropped(ms[j], ignoreNull)
  }

  predicate KeptLater(ms: seq<Member>, ignoreNull: bool, i: nat)
    requires i < |ms|
  {
    exists j :: i < j < |ms| && ms[j].name == ms[i].name && !Dropped(ms[j], ignoreNull)
  }

  /** Nothing is lost `n` levels above the cut: what is cut is null already, and no member that counts is
      dropped, except where the same name has a later member that is cut to null. */
  predicate Lossless(v: Json, ignoreNull: bool, n: nat)
    decreases v
  {
    if n == 0 then v.JNull?
    else
      match v
      case JArray(items) => forall i :: 0 <= i < |items| ==> Lossless(items[i], ignoreNull, n - 1)
      case JObject(ms) =>
        forall i :: 0 <= i < |ms| && FirstNamed(ms, i) ==>
          if Dropped(ms[i], ignoreNull) then n == 1 && KeptLater(ms, ignoreNull, i)
          else Lossless(ms[i].value, ignoreNull, n - 1)
      case _ => true
  }

  lemma {:induction false} DenoteAt(ms: seq<Member>, i: nat, round: Rounding)
    requires i < |ms| && FirstNamed(ms, i)
    ensures ms[i].name in DenoteMembers(ms, round) && DenoteMembers(ms, round)[ms[i].name] == Denote(ms[i].value, round)
  {
    var front := ms[..|ms| - 1];
    if i < |front| {
      assert FirstNamed(front, i);
      DenoteAt(front, i, round);
    } else if ms[i].name in DenoteMembers(front, round) {
      var j := NamedIndex(front, ms[i].name, round);
      assert false;
    }
  }

  lemma {:induction false} NamedIndex(ms: seq<Member>, name: string, round: Rounding) returns (i: nat)
    requires name in DenoteMembers(ms, round)
    ensures i < |ms| && FirstNamed(ms, i) && ms[i].name == name
  {
    var front := ms[..|ms| - 1];
    if name in DenoteMembers(front, round) {
      i := NamedIndex(front, name, round);
      assert forall j :: 0 <= j <= i ==> ms[j] == front[j];
    } else {
      i := |front|;
      forall j | 0 <= j < i ensures ms[j].name != name {
        if ms[j].name == name { PresentName(front, j, round); }
      }
    }
  }

  lemma {:induction false} PresentName(ms: seq<Member>, i: nat, round: Rounding)
    requires i < |ms|
    ensures ms[i].name in DenoteMembers(ms, round)
  {
    if i < |ms| - 1 { PresentName(ms[..|ms| - 1], i, round); }
  }

  ghost function KeptNames(ms: seq<Member>, ignoreNull: bool, round: Rounding): map<string, Meaning> {
    DenoteMembers(KeptMembers(ms, ignoreNull), round)
  }

  /** What the last member adds to the kept names. */
  lemma KeptStep(ms: seq<Member>, ignoreNull: bool, round: Rounding)
    requires ms != []
    ensures
      var before, last := KeptNames(ms[..|ms| - 1], ignoreNull, round), ms[|ms| - 1];
      && (Dropped(last, ignoreNull) ==> KeptNames(ms, ignoreNull, round) == before)
      && (!Dropped(last, ignoreNull) ==>
            KeptNames(ms, ignoreNull, round) == Emplace(before, last.name, Denote(Kept(last.value, ignoreNull), round)))
  {
    var front, last := ms[..|ms| - 1], ms[|ms| - 1];
    if !Dropped(last, ignoreNull) {
      DenoteAppend(KeptMembers(front, ignoreNull), Member(last.name, Kept(last.value, ignoreNull)), round);
    }
  }

  lemma {:induction false} KeptAt(ms: seq<Member>, ignoreNull: bool, i: nat, round: Rounding)
    requires i < |ms| && FirstKept(ms, ignoreNull, i)
    ensures
      var m := KeptNames(ms, ignoreNull, round);
      ms[i].name in m && m[ms[i].name] == Denote(Kept(ms[i].value, ignoreNull), round)
  {
    var front := ms[..|ms| - 1];
    KeptStep(ms, ignoreNull, round);
    if i < |front| {
      assert FirstKept(front, ignoreNull, i);
      KeptAt(front, ignoreNull, i, round);
    } else if ms[i].name in KeptNames(front, ignoreNull, round) {
      var j := KeptIndex(front, ignoreNull, ms[i].name, round);
      assert false;
    }
  }

  lemma {:induction false} KeptIndex(ms: seq<Member>, ignoreNull: bool, name: string, round: Rounding) returns (i: nat)
    requires name in KeptNames(ms, ignoreNull, round)
    ensures i < |ms| && FirstKept(ms, ignoreNull, i) && ms[i].name == name
  {
    var front := ms[..|ms| - 1];
    KeptStep(ms, ignoreNull, round);
    if name in KeptNames(front, ignoreNull, round) {
      i := KeptIndex(front, ignoreNull, name, round);
      assert forall j :: 0 <= j <= i ==> ms[j] == front[j];
    } else {
      i := |front|;
      forall j | 0 <= j < i && ms[j].name == name ensures Dropped(ms[j], ignoreNull) {
        if !Dropped(ms[j], ignoreNull) { PresentKept(front, ignoreNull, j, round); }
      }
    }
  }

  lemma {:induction false} PresentKept(ms: seq<Member>, ignoreNull: bool, i: nat, round: Rounding)
    requires i < |ms| && !Dropped(ms[i], ignoreNull)
    ensures ms[i].name in KeptNames(ms, ignoreNull, round)
  {
    var front := ms[..|ms| - 1];
    KeptStep(ms, ignoreNull, round);
    if i < |front| { PresentKept(front, ignoreNull, i, round); }
  }

  /** Dropping and cutting change the meaning of exactly the documents that are not lossless. */
  lemma {:induction false} LosslessExactly(v: Json, ignoreNull: bool, depth: nat, round: Rounding)
    requires depth <= MAX_DEPTH
    ensures Cut(Denote(Kept(v, ignoreNull), round), depth) == Denote(v, round)
       <==> Lossless(v, ignoreNull, MAX_DEPTH - depth)
    decreases v, 1
  {
    if depth < MAX_DEPTH {
      match v
      case JArray(items) => LosslessItems(items, ignoreNull, depth, round, v);
      case JObject(ms) => LosslessMembers(ms, ignoreNull, depth, round, v);
      case _ =>
    }
  }

  lemma {:induction false} LosslessItems(items: seq<Json>, ignoreNull: bool, depth: nat, round: Rounding, v: Json)
    requires depth < MAX_DEPTH && v == JArray(items)
    ensures Cut(Denote(Kept(v, ignoreNull), round), depth) == Denote(v, round)
       <==> Lossless(v, ignoreNull, MAX_DEPTH - depth)
    decreases v, 0
  {
    var l, r := Cut(Denote(Kept(v, ignoreNull), round), depth).items, Denote(v, round).items;
    forall i | 0 <= i < |items| ensures l[i] == r[i] <==> Lossless(items[i], ignoreNull, MAX_DEPTH - depth - 1) {
      LosslessExactly(items[i], ignoreNull, depth + 1, round);
    }
    assert l == r <==> forall i :: 0 <= i < |items| ==> l[i] == r[i];
  }

  /** What becomes of member `i`, the one its name stands for. */
  lemma {:induction false} LosslessMember(ms: seq<Member>, ignoreNull: bool, depth: nat, round: Rounding, v: Json,
                                          i: nat)
    requires depth < MAX_DEPTH && v == JObject(ms) && i < |ms| && FirstNamed(ms, i)
    ensures
      var name, n := ms[i].name, MAX_DEPTH - depth;
      var l, r := CutAll(KeptNames(ms, ignoreNull, round), depth + 1), DenoteMembers(ms, round);
      && name in r
      && (name in l && l[name] == r[name] <==>
            if Dropped(ms[i], ignoreNull) then n == 1 && KeptLater(ms, ignoreNull, i)
            else Lossless(ms[i].value, ignoreNull, n - 1))
    decreases v, 0, 0
  {
    var name := ms[i].name;
    DenoteAt(ms, i, round);
    if !Dropped(ms[i], ignoreNull) {
      KeptAt(ms, ignoreNull, i, round);
      LosslessExactly(ms[i].value, ignoreNull, depth + 1, round);
    } else {
      var kept := KeptNames(ms, ignoreNull, round);
      if name in kept {
        var j := KeptIndex(ms, ignoreNull, name, round);
        KeptAt(ms, ignoreNull, j, round);
        assert j > i;
      }
      if KeptLater(ms, ignoreNull, i) {
        var j :| i < j < |ms| && ms[j].name == name && !Dropped(ms[j], ignoreNull);
        PresentKept(ms, ignoreNull, j, round);
      }
    }
  }

  lemma {:induction false} LosslessMembers(ms: seq<Member>, ignoreNull: bool, depth: nat, round: Rounding, v: Json)
    requires depth < MAX_DEPTH && v == JObject(ms)
    ensures Cut(Denote(Kept(v, ignoreNull), round), depth) == Denote(v, round)
       <==> Lossless(v, ignoreNull, MAX_DEPTH - depth)
    decreases v, 0, 1
  {
    var l, r := CutAll(KeptNames(ms, ignoreNull, round), depth + 1), DenoteMembers(ms, round);
    assert Cut(Denote(Kept(v, ignoreNull), round), depth).members == l;
    forall i | 0 <= i < |ms| && FirstNamed(ms, i)
      ensures ms[i].name in r
      ensures ms[i].name in l && l[ms[i].name] == r[ms[i].name] <==>
        if Dropped(ms[i], ignoreNull) then MAX_DEPTH - depth == 1 && KeptLater(ms, ignoreNull, i)
        else Lossless(ms[i].value, ignoreNull, MAX_DEPTH - depth - 1)
    {
      LosslessMember(ms, ignoreNull, depth, round, v, i);
    }
    forall k | k in l ensures k in r {
      var j := KeptIndex(ms, ignoreNull, k, round);
      PresentName(ms, j, round);
    }
    if Lossless(v, ignoreNull, MAX_DEPTH - depth) {
      forall k | k in r ensures k in l && l[k] == r[k] {
        var i := NamedIndex(ms, k, round);
      }
      assert l == r;
    }
  }

  /** The round trip is exact on exactly the lossless documents. */
  lemma JsonRoundTripExact(v: Json, ignoreNull: bool, round: Rounding, order: Order)
    requires IsOrder(order)
    ensures Read(Emit(FromJson(v, ignoreNull, 0, round), order, [])) == Some((Denote(v, round), []))
       <==> Lossless(v, ignoreNull, MAX_DEPTH)
  {
    JsonRoundTrip(v, ignoreNull, round, order);
    LosslessExactly(v, ignoreNull, 0, round);
  }

  // ------------------------------------------------------------------ what is converted to what

  /** Member `i` decides what becomes of its name: no earlier member of that name is converted. */
  predicate Counts(ms: seq<Member>, ignoreNull: bool, i: int) {
    && 0 <= i < |ms|
    && !(ignoreNull && ms[i].value.JNull?)
    && forall j :: 0 <= j < i && ms[j].name == ms[i].name ==> ignoreNull && ms[j].value.JNull?
  }

  ghost predicate Named(ms: seq<Member>, ignoreNull: bool, name: string) {
    exists i :: Counts(ms, ignoreNull, i) && ms[i].name == name
  }

  /** `h` is what a document has to become, `depth` levels down: the kind of value at every position. */
  ghost predicate Becomes(v: Json, h: Value, ignoreNull: bool, depth: nat, round: Rounding)
    decreases v
  {
    if depth >= 50 then h == Null
    else
      match v
      case JNull => h == Null
      case JBool(b) => h == Boolean(b)
      case JInt(n) =>
        && (-0x8000_0000 <= n <= 0x7FFF_FFFF ==> h.Integer? && h.i == n)
        && (n < -0x8000_0000 || 0x7FFF_FFFF < n <= 0x7FFF_FFFF_FFFF_FFFF ==> h.Long? && h.l == n)
        && (n > 0x7FFF_FFFF_FFFF_FFFF ==> h.Double? && h.d == round(n))
      case JDouble(d) => h == Double(d)
      case JString(s) => h == Str(s)
      case JArray(items) =>
        && h.UntypedList? && |h.items| == |items|
        && forall i :: 0 <= i < |items| ==> Becomes(items[i], h.items[i], ignoreNull, depth + 1, round)
      case JObject(ms) =>
        && h.UntypedMap?
        && (forall k :: k in h.entries <==> Named(ms, ignoreNull, k))
        && (forall i {:trigger Counts(ms, ignoreNull, i)} :: Counts(ms, ignoreNull, i) ==>
              && ms[i].name in h.entries
              && Becomes(ms[i].value, h.entries[ms[i].name], ignoreNull, depth + 1, round))
  }

  /** The member that counts is the one that is converted. */
  lemma {:induction false} FromMembersAt(ms: seq<Member>, ignoreNull: bool, depth: nat, round: Rounding, i: int)
    requires Counts(ms, ignoreNull, i)
    ensures
      var entries := FromMembers(ms, ignoreNull, depth, round);
      ms[i].name in entries && entries[ms[i].name] == FromJson(ms[i].value, ignoreNull, depth, round)
  {
    var front := ms[..|ms| - 1];
    if i < |front| {
      assert Counts(front, ignoreNull, i);
      FromMembersAt(front, ignoreNull, depth, round, i);
    } else if ms[i].name in FromMembers(front, ignoreNull, depth, round) {
      var j := FromMembersIndex(front, ignoreNull, depth, round, ms[i].name);
      assert false;
    }
  }

  lemma {:induction false} FromMembersIndex(ms: seq<Member>, ignoreNull: bool, depth: nat, round: Rounding,
                                            name: string)
    returns (i: int)
    requires name in FromMembers(ms, ignoreNull, depth, round)
    ensures Counts(ms, ignoreNull, i) && ms[i].name == name
  {
    var front := ms[..|ms| - 1];
    if name in FromMembers(front, ignoreNull, depth, round) {
      i := FromMembersIndex(front, ignoreNull, depth, round, name);
      assert forall j :: 0 <= j <= i ==> ms[j] == front[j];
    } else {
      i := |front|;
      forall j | 0 <= j < i && ms[j].name == name ensures ignoreNull && ms[j].value.JNull? {
        if !(ignoreNull && ms[j].value.JNull?) {
          var k := FirstToCount(front, ignoreNull, j);
          FromMembersAt(front, ignoreNull, depth, round, k);
        }
      }
    }
  }

  lemma {:induction false} FirstToCount(ms: seq<Member>, ignoreNull: bool, j: int) returns (i: int)
    requires 0 <= j < |ms| && !(ignoreNull && ms[j].value.JNull?)
    ensures Counts(ms, ignoreNull, i) && ms[i].name == ms[j].name
    decreases j
  {
    i := j;
    if k :| 0 <= k < j && ms[k].name == ms[j].name && !(ignoreNull && ms[k].value.JNull?) {
      i := FirstToCount(ms, ignoreNull, k);
    }
  }

  /** Every document becomes exactly that. */
  lemma {:induction false} FromJsonBecomes(v: Json, ignoreNull: bool, depth: nat, round: Rounding)
    ensures Becomes(v, FromJson(v, ignoreNull, depth, round), ignoreNull, depth, round)
    decreases v, 1
  {
    if depth < 50 {
      match v
      case JArray(items) =>
        forall i | 0 <= i < |items|
          ensures Becomes(items[i], FromJson(items[i], ignoreNull, depth + 1, round), ignoreNull, depth + 1, round)
        {
          FromJsonBecomes(items[i], ignoreNull, depth + 1, round);
        }
      case JObject(ms) => FromObjectBecomes(v, ms, ignoreNull, depth, round);
      case _ =>
    }
  }

  lemma {:induction false} FromObjectBecomes(v: Json, ms: seq<Member>, ignoreNull: bool, depth: nat, round: Rounding)
    requires depth < 50 && v == JObject(ms)
    ensures Becomes(v, FromJson(v, ignoreNull, depth, round), ignoreNull, depth, round)
    decreases v, 0
  {
    var entries := FromMembers(ms, ignoreNull, depth + 1, round);
    forall k ensures k in entries <==> Named(ms, ignoreNull, k) {
      if k in entries {
        var i := FromMembersIndex(ms, ignoreNull, depth + 1, round, k);
      }
      if i :| Counts(ms, ignoreNull, i) && ms[i].name == k {
        FromMembersAt(ms, ignoreNull, depth + 1, round, i);
      }
    }
    forall i | Counts(ms, ignoreNull, i)
      ensures ms[i].name in entries && Becomes(ms[i].value, entries[ms[i].name], ignoreNull, depth + 1, round)
    {
      FromMembersAt(ms, ignoreNull, depth + 1, round, i);
      FromJsonBecomes(ms[i].value, ignoreNull, depth + 1, round);
    }
  }

  /** Only one value is what a document has to become. */
  lemma {:induction false} BecomesOne(v: Json, h: Value, r: Value, ignoreNull: bool, depth: nat, round: Rounding)
    requires Becomes(v, h, ignoreNull, depth, round) && Becomes(v, r, ignoreNull, depth, round)
    ensures h == r
    decreases v, 1
  {
    if depth < 50 {
      match v
      case JArray(items) =>
        forall i | 0 <= i < |items| ensures h.items[i] == r.items[i] {
          BecomesOne(items[i], h.items[i], r.items[i], ignoreNull, depth + 1, round);
        }
      case JObject(ms) => BecomesOneObject(v, ms, h, r, ignoreNull, depth, round);
      case _ =>
    }
  }

  lemma {:induction false} BecomesOneObject(v: Json, ms: seq<Member>, h: Value, r: Value, ignoreNull: bool,
                                            depth: nat, round: Rounding)
    requires depth < 50 && v == JObject(ms)
    requires Becomes(v, h, ignoreNull, depth, round) && Becomes(v, r, ignoreNull, depth, round)
    ensures h == r
    decreases v, 0
  {
    forall k | k in h.entries ensures k in r.entries && h.entries[k] == r.entries[k] {
      assert Named(ms, ignoreNull, k);
      var i :| Counts(ms, ignoreNull, i) && ms[i].name == k;
      BecomesOne(ms[i].value, h.entries[k], r.entries[k], ignoreNull, depth + 1, round);
    }
    assert forall k :: k in r.entries ==> Named(ms, ignoreNull, k) && k in h.entries;
    assert h.entries == r.entries;
  }

  /** A document becomes `h` exactly when `h` is the right kind of value at every position. */
  lemma BecomesExactly(v: Json, h: Value, ignoreNull: bool, depth: nat, round: Rounding)
    ensures h == FromJson(v, ignoreNull, depth, round) <==> Becomes(v, h, ignoreNull, depth, round)
    ensures Plain(FromJson(v, ignoreNull, depth, round))
  {
    var r := FromJson(v, ignoreNull, depth, round);
    FromJsonBecomes(v, ignoreNull, depth, round);
    BecomesPlain(v, r, ignoreNull, depth, round);
    if Becomes(v, h, ignoreNull, depth, round) {
      BecomesOne(v, h, r, ignoreNull, depth, round);
    }
  }

  /** Null, booleans, numbers and strings in untyped lists and maps, and nothing else. */
  predicate Plain(h: Value) {
    match h
    case Null => true
    case Boolean(_) => true
    case Integer(_) => true
    case Long(_) => true
    case Double(_) => true
    case Str(_) => true
    case UntypedList(items) => forall i :: 0 <= i < |items| ==> Plain(items[i])
    case UntypedMap(entries) => forall k :: k in entries ==> Plain(entries[k])
    case _ => false
  }

  /** No binary data, date, typed container or class instance occurs anywhere in the result. */
  lemma {:induction false} BecomesPlain(v: Json, h: Value, ignoreNull: bool, depth: nat, round: Rounding)
    requires Becomes(v, h, ignoreNull, depth, round)
    ensures Plain(h)
    decreases v
  {
    if depth < 50 {
      match v
      case JArray(items) =>
        forall i | 0 <= i < |items| ensures Plain(h.items[i]) {
          BecomesPlain(items[i], h.items[i], ignoreNull, depth + 1, round);
        }
      case JObject(ms) =>
        forall k | k in h.entries ensures Plain(h.entries[k]) {
          assert Named(ms, ignoreNull, k);
          var i :| Counts(ms, ignoreNull, i) && ms[i].name == k;
          BecomesPlain(ms[i].value, h.entries[k], ignoreNull, depth + 1, round);
        }
      case _ =>
    }
  }

  // ------------------------------------------------------------------ what is written for what

  /** Scalars, and a class without a definition. */
  lemma ScalarsWritten(order: Order, at: Position, b: bool, i: int32, l: int64, d: real, s: string, data: seq<Value>)
    requires IsOrder(order)
    ensures Emit(Null, order, at) == Emit(Instance(None, data), order, at) == [WriteNull]
    ensures Emit(Boolean(b), order, at) == [WriteBool(b)]
    ensures Emit(Integer(i), order, at) == [WriteInt(i)]
    ensures Emit(Long(l), order, at) == Emit(Date(l), order, at) == [WriteInt(l)]
    ensures Emit(Double(d), order, at) == [WriteDouble(d)]
    ensures Emit(Str(s), order, at) == Emit(Binary(s), order, at) == [WriteString(s)]
  {
  }

  /** A reader finds the items of a list in order and the entries of a map under their names, typed or not. */
  lemma ContainersRead(items: seq<Value>, entries: map<string, Value>, order: Order, at: Position, rest: seq<Event>)
    requires IsOrder(order)
    ensures Read(Emit(TypedList(items), order, at) + rest) == Read(Emit(UntypedList(items), order, at) + rest)
    ensures
      var r := Read(Emit(UntypedList(items), order, at) + rest);
      && r.Some? && r.value.0.MArray? && r.value.1 == rest && |r.value.0.items| == |items|
      && forall i :: 0 <= i < |items| ==> Some((r.value.0.items[i], rest)) == Read(Emit(items[i], order, at) + rest)
    ensures Read(Emit(TypedMap(entries), order, at) + rest) == Read(Emit(UntypedMap(entries), order, at) + rest)
    ensures
      var r := Read(Emit(UntypedMap(entries), order, at) + rest);
      && r.Some? && r.value.0.MObject? && r.value.1 == rest && r.value.0.members.Keys == entries.Keys
      && forall k :: k in entries ==>
        Some((r.value.0.members[k], rest)) == Read(Emit(entries[k], order, at) + rest)
  {
    ReadEmit(TypedList(items), order, at, rest);
    ReadEmit(UntypedList(items), order, at, rest);
    ReadEmit(TypedMap(entries), order, at, rest);
    ReadEmit(UntypedMap(entries), order, at, rest);
    forall h: Value ensures Read(Emit(h, order, at) + rest) == Some((MeaningOf(h), rest)) {
      ReadEmit(h, order, at, rest);
    }
  }

  /** A reader finds the value of a class instance under each field name, of a repeated one the first; names
      without values and values without names are gone. */
  lemma InstanceRead(names: seq<string>, data: seq<Value>, order: Order, at: Position, rest: seq<Event>)
    requires IsOrder(order)
    ensures
      var r := Read(Emit(Instance(Some(names), data), order, at) + rest);
      && r.Some? && r.value.0.MObject? && r.value.1 == rest
      && (forall k :: k in r.value.0.members <==> exists i :: FirstField(names, data, i) && names[i] == k)
      && (forall i :: FirstField(names, data, i) ==>
            Some((r.value.0.members[names[i]], rest)) == Read(Emit(data[i], order, at) + rest))
  {
    ReadEmit(Instance(Some(names), data), order, at, rest);
    FieldsFirst(names, data);
    forall i | FirstField(names, data, i)
      ensures Some((FieldMeanings(names, data)[names[i]], rest)) == Read(Emit(data[i], order, at) + rest)
    {
      ReadEmit(data[i], order, at, rest);
    }
  }

  predicate FirstField(names: seq<string>, data: seq<Value>, i: int) {
    && 0 <= i < |names| && i < |data|
    && forall j :: 0 <= j < i ==> names[j] != names[i]
  }

  lemma {:induction false} FieldsFirst(names: seq<string>, data: seq<Value>)
    ensures forall k :: k in FieldMeanings(names, data) <==> exists i :: FirstField(names, data, i) && names[i] == k
    ensures forall i :: FirstField(names, data, i) ==>
      names[i] in FieldMeanings(names, data) && FieldMeanings(names, data)[names[i]] == MeaningOf(data[i])
  {
    if names != [] && data != [] {
      var later, values := names[1..], data[1..];
      FieldsFirst(later, values);
      assert FirstField(names, data, 0);
      forall i | FirstField(names, data, i) && i > 0
        ensures FirstField(later, values, i - 1) && later[i - 1] == names[i] && names[i] != names[0]
      {
        assert forall j :: 0 <= j < i - 1 ==> later[j] == names[j + 1];
      }
      forall k | k in FieldMeanings(later, values) && k != names[0]
        ensures exists i :: FirstField(names, data, i) && names[i] == k
      {
        var i :| FirstField(later, values, i) && later[i] == k;
        assert forall j :: 0 < j < i + 1 ==> names[j] == later[j - 1];
        assert FirstField(names, data, i + 1);
      }
    }
  }
}
