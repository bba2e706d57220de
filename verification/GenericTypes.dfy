/** `populateGenericTypes`: path-directed addition of "class" members to untyped maps. */
module GenericTypes {
  import opened Common
  import opened Hessian

  datatype GenericType = GenericType(path: seq<string>, name: string)

  const ALL := "*"
  const CLASS_KEY := "class"

  // ------------------------------------------------------------------ the passes of the source

  /** One pass for one configured type. */
  function PopulateSingle(path: seq<string>, name: string, h: Value): Value
    decreases |path|
  {
    if path == [] then
      if h.UntypedMap? && CLASS_KEY !in h.entries then UntypedMap(h.entries[CLASS_KEY := Str(name)]) else h
    else if path[0] == ALL then
      match h
      case UntypedList(items) =>
        UntypedList(seq(|items|, i requires 0 <= i < |items| => PopulateSingle(path[1..], name, items[i])))
      case UntypedMap(m) => UntypedMap(map k | k in m :: PopulateSingle(path[1..], name, m[k]))
      case _ => h
    else if h.UntypedMap? && path[0] in h.entries then
      UntypedMap(h.entries[path[0] := PopulateSingle(path[1..], name, h.entries[path[0]])])
    else h
  }

  /** All passes, in list order: the result is the single-pass annotation. */
  method PopulateGenericTypes(types: seq<GenericType>, h: Value) returns (r: Value)
    ensures r == Annotate(types, h)
  {
    r := h;
    AnnotateNothing(h);
    for i := 0 to |types|
      invariant r == Annotate(types[..i], h)
    {
      PassExtendsAnnotation(types[..i], types[i], h);
      assert types[..i] + [types[i]] == types[..i + 1];
      r := PopulateSingle(types[i].path, types[i].name, r);
    }
    assert types[..|types|] == types;
  }

  // ------------------------------------------------------------------ one pass over the tree

  /** How a child is reached from its container. */
  datatype Step = Index(i: nat) | Key(k: string)

  predicate Follows(segment: string, step: Step) {
    segment == ALL || step == Key(segment)
  }

  /** The types that still apply below `step`, with the segment they have used up removed. */
  function Below(types: seq<GenericType>, step: Step): seq<GenericType> {
    if types == [] then []
    else
      var front := Below(types[..|types| - 1], step);
      var g := types[|types| - 1];
      if g.path != [] && Follows(g.path[0], step) then front + [GenericType(g.path[1..], g.name)] else front
  }

  /** The first type in list order that names this very node. */
  function Here(types: seq<GenericType>): Option<string> {
    if types == [] then None
    else
      var front := Here(types[..|types| - 1]);
      var g := types[|types| - 1];
      if front.None? && g.path == [] then Some(g.name) else front
  }

  /** Every node is visited once, carrying the types that reach it. */
  function Annotate(types: seq<GenericType>, h: Value): Value
    decreases h, 1
  {
    match h
    case UntypedList(items) =>
      UntypedList(seq(|items|, i requires 0 <= i < |items| => Annotate(Below(types, Index(i)), items[i])))
    case UntypedMap(m) => UntypedMap(WithClass(Here(types), m, Children(types, h)))
    case _ => h
  }

  function Children(types: seq<GenericType>, h: Value): (c: map<string, Value>)
    requires h.UntypedMap?
    ensures c.Keys == h.entries.Keys
    decreases h, 0
  {
    map k | k in h.entries :: Annotate(Below(types, Key(k)), h.entries[k])
  }

  /** The members of an annotated map: `m` had no "class" and `name` supplies one, or nothing is added. */
  function WithClass(name: Option<string>, m: map<string, Value>, children: map<string, Value>): map<string, Value> {
    if CLASS_KEY !in m && name.Some? then children[CLASS_KEY := Str(name.value)] else children
  }

  lemma {:induction false} AnnotateNothing(h: Value)
    ensures Annotate([], h) == h
  {
    match h
    case UntypedList(items) =>
      forall i | 0 <= i < |items| ensures Annotate(Below([], Index(i)), items[i]) == items[i] {
        AnnotateNothing(items[i]);
      }
    case UntypedMap(m) =>
      forall k | k in m ensures Annotate(Below([], Key(k)), m[k]) == m[k] {
        AnnotateNothing(m[k]);
      }
      assert Children([], h) == m;
    case _ =>
  }

  /** A type configured last changes what its path reaches and nothing else. */
  lemma AppendType(types: seq<GenericType>, g: GenericType, step: Step)
    ensures Below(types + [g], step)
         == Below(types, step)
          + (if g.path != [] && Follows(g.path[0], step) then [GenericType(g.path[1..], g.name)] else [])
    ensures Here(types + [g]) == if Here(types).None? && g.path == [] then Some(g.name) else Here(types)
  {
    assert (types + [g])[..|types|] == types;
    assert Below(types, step) + [] == Below(types, step);
  }

  /** Running one more pass over an annotated tree is annotating with one more type: what earlier
      passes added never changes what a later path matches. */
  lemma {:induction false} PassExtendsAnnotation(types: seq<GenericType>, g: GenericType, h: Value)
    ensures PopulateSingle(g.path, g.name, Annotate(types, h)) == Annotate(types + [g], h)
    decreases h, 2
  {
    match h
    case UntypedList(items) => PassOverList(types, g, items, h);
    case UntypedMap(m) => PassOverMap(types, g, h);
    case _ =>
  }

  lemma {:induction false} PassOverChild(types: seq<GenericType>, g: GenericType, step: Step, child: Value)
    ensures Annotate(Below(types + [g], step), child)
         == if g.path != [] && Follows(g.path[0], step)
            then PopulateSingle(g.path[1..], g.name, Annotate(Below(types, step), child))
            else Annotate(Below(types, step), child)
    decreases child, 3
  {
    AppendType(types, g, step);
    if g.path != [] && Follows(g.path[0], step) {
      PassExtendsAnnotation(Below(types, step), GenericType(g.path[1..], g.name), child);
    } else {
      assert Below(types, step) + [] == Below(types, step);
    }
  }

  lemma {:induction false} PassOverList(types: seq<GenericType>, g: GenericType, items: seq<Value>, h: Value)
    requires h == UntypedList(items)
    ensures PopulateSingle(g.path, g.name, Annotate(types, h)) == Annotate(types + [g], h)
    decreases h, 0
  {
    forall i | 0 <= i < |items|
      ensures PopulateSingle(g.path, g.name, Annotate(types, h)).UntypedList?
      ensures |PopulateSingle(g.path, g.name, Annotate(types, h)).items| == |items|
      ensures PopulateSingle(g.path, g.name, Annotate(types, h)).items[i]
        == Annotate(Below(types + [g], Index(i)), items[i])
    {
      PassOverChild(types, g, Index(i), items[i]);
    }
  }

  /** A pass with a nonempty path visits the members it follows. */
  function PopulateMember(path: seq<string>, name: string, k: string, v: Value): Value
    requires path != []
  {
    if Follows(path[0], Key(k)) then PopulateSingle(path[1..], name, v) else v
  }

  lemma PopulateMap(path: seq<string>, name: string, m: map<string, Value>)
    requires path != []
    ensures PopulateSingle(path, name, UntypedMap(m))
      == UntypedMap(map k | k in m :: PopulateMember(path, name, k, m[k]))
  {
    var r := PopulateSingle(path, name, UntypedMap(m));
    assert r.entries == map k | k in m :: PopulateMember(path, name, k, m[k]);
  }

  lemma {:induction false} PassOverMap(types: seq<GenericType>, g: GenericType, h: Value)
    requires h.UntypedMap?
    ensures PopulateSingle(g.path, g.name, Annotate(types, h)) == Annotate(types + [g], h)
    decreases h, 1
  {
    var before, after := Children(types, h), Children(types + [g], h);
    AppendType(types, g, Key(CLASS_KEY));
    PassOverMembers(types, g, h);
    if g.path == [] {
      PassHere(g, Here(types), h.entries, before);
    } else {
      PassBelow(g, Here(types), h.entries, before, after);
    }
  }

  lemma {:induction false} PassOverMembers(types: seq<GenericType>, g: GenericType, h: Value)
    requires h.UntypedMap?
    ensures g.path == [] ==> Children(types + [g], h) == Children(types, h)
    ensures g.path != [] ==> forall k :: k in h.entries ==>
      Children(types + [g], h)[k] == PopulateMember(g.path, g.name, k, Children(types, h)[k])
    decreases h, 0
  {
    forall k | k in h.entries
      ensures g.path == [] ==> Children(types + [g], h)[k] == Children(types, h)[k]
      ensures g.path != [] ==>
        Children(types + [g], h)[k] == PopulateMember(g.path, g.name, k, Children(types, h)[k])
    {
      PassOverChild(types, g, Key(k), h.entries[k]);
    }
  }

  lemma PassHere(g: GenericType, here: Option<string>, m: map<string, Value>, c: map<string, Value>)
    requires g.path == [] && c.Keys == m.Keys
    ensures PopulateSingle(g.path, g.name, UntypedMap(WithClass(here, m, c)))
         == UntypedMap(WithClass(if here.None? then Some(g.name) else here, m, c))
  {
  }

  /** The pass over the members commutes with the addition of "class". */
  lemma PassBelow(g: GenericType, here: Option<string>, m: map<string, Value>, before: map<string, Value>,
                  after: map<string, Value>)
    requires g.path != [] && before.Keys == m.Keys == after.Keys
    requires forall k :: k in m ==> after[k] == PopulateMember(g.path, g.name, k, before[k])
    ensures PopulateSingle(g.path, g.name, UntypedMap(WithClass(here, m, before)))
      == UntypedMap(WithClass(here, m, after))
  {
    var all := WithClass(here, m, before);
    PopulateMap(g.path, g.name, all);
    if CLASS_KEY !in m && here.Some? {
      PopulateScalar(g.path[1..], g.name, here.value);
    }
    assert (map k | k in all :: PopulateMember(g.path, g.name, k, all[k])) == WithClass(here, m, after);
  }

  /** What an annotation adds is a string, and no path leads into a string. */
  lemma PopulateScalar(path: seq<string>, name: string, s: string)
    ensures PopulateSingle(path, name, Str(s)) == Str(s)
  {
  }

  /** Applying the list twice is applying it once. */
  lemma {:induction false} AnnotateIdempotent(types: seq<GenericType>, h: Value)
    ensures Annotate(types, Annotate(types, h)) == Annotate(types, h)
    decreases h
  {
    match h
    case UntypedList(items) =>
      forall i | 0 <= i < |items|
        ensures Annotate(Below(types, Index(i)), Annotate(Below(types, Index(i)), items[i]))
          == Annotate(Below(types, Index(i)), items[i])
      {
        AnnotateIdempotent(Below(types, Index(i)), items[i]);
      }
    case UntypedMap(m) =>
      var a := Annotate(types, h);
      forall k | k in m ensures Children(types, a)[k] == Children(types, h)[k] {
        AnnotateIdempotent(Below(types, Key(k)), m[k]);
      }
      assert WithClass(Here(types), a.entries, Children(types, a)) == a.entries;
    case _ =>
  }

  // ------------------------------------------------------------------ what changes, position by position

  function Child(h: Value, step: Step): Option<Value> {
    match (h, step)
    case (UntypedList(items), Index(i)) => if i < |items| then Some(items[i]) else None
    case (UntypedMap(m), Key(k)) => if k in m then Some(m[k]) else None
    case _ => None
  }

  /** The node at a position, reached through untyped containers only. */
  function Find(h: Value, pos: seq<Step>): Option<Value>
    decreases |pos|
  {
    if pos == [] then Some(h)
    else
      match Child(h, pos[0])
      case None => None
      case Some(c) => Find(c, pos[1..])
  }

  /** Positions go through the items of untyped lists and the members of untyped maps, and nowhere else. */
  lemma {:induction false} FindStep(h: Value, pos: seq<Step>, step: Step, v: Value)
    ensures Find(h, []) == Some(h)
    ensures Find(h, pos + [step]) == Some(v) <==>
      && Find(h, pos).Some?
      && var at := Find(h, pos).value;
         || (at.UntypedList? && step.Index? && step.i < |at.items| && v == at.items[step.i])
         || (at.UntypedMap? && step.Key? && step.k in at.entries && v == at.entries[step.k])
    decreases |pos|
  {
    if pos == [] {
      assert [] + [step] == [step] && [step][1..] == [];
    } else {
      assert (pos + [step])[1..] == pos[1..] + [step];
      if Child(h, pos[0]).Some? {
        FindStep(Child(h, pos[0]).value, pos[1..], step, v);
      }
    }
  }

  /** The children of an annotated node: the annotated children, and possibly a new "class". */
  lemma AnnotateChild(types: seq<GenericType>, h: Value, step: Step)
    ensures Child(h, step).Some? ==>
      Child(Annotate(types, h), step) == Some(Annotate(Below(types, step), Child(h, step).value))
    ensures Child(h, step).None? && Child(Annotate(types, h), step).Some? ==>
      && step == Key(CLASS_KEY) && h.UntypedMap? && CLASS_KEY !in h.entries
      && Here(types).Some? && Child(Annotate(types, h), step) == Some(Str(Here(types).value))
  {
  }

  predicate Matches(path: seq<string>, pos: seq<Step>) {
    |path| == |pos| && forall i :: 0 <= i < |path| ==> Follows(path[i], pos[i])
  }

  /** The first type in list order whose path matches the position. */
  function FirstMatch(types: seq<GenericType>, pos: seq<Step>): (r: Option<string>)
    ensures r.None? <==> forall i :: 0 <= i < |types| ==> !Matches(types[i].path, pos)
  {
    if types == [] then None
    else if Matches(types[0].path, pos) then Some(types[0].name)
    else FirstMatch(types[1..], pos)
  }

  lemma {:induction false} FirstMatchAppend(types: seq<GenericType>, g: GenericType, pos: seq<Step>)
    ensures FirstMatch(types + [g], pos)
         == if FirstMatch(types, pos).None? && Matches(g.path, pos) then Some(g.name) else FirstMatch(types, pos)
  {
    if types != [] {
      assert (types + [g])[1..] == types[1..] + [g];
      FirstMatchAppend(types[1..], g, pos);
    } else {
      assert ([] + [g])[1..] == [];
    }
  }

  lemma {:induction false} MatchHere(types: seq<GenericType>)
    ensures FirstMatch(types, []) == Here(types)
  {
    if types != [] {
      var front, g := types[..|types| - 1], types[|types| - 1];
      assert types == front + [g];
      FirstMatchAppend(front, g, []);
      MatchHere(front);
    }
  }

  lemma {:induction false} MatchBelow(types: seq<GenericType>, pos: seq<Step>)
    requires pos != []
    ensures FirstMatch(types, pos) == FirstMatch(Below(types, pos[0]), pos[1..])
  {
    if types != [] {
      var front, g := types[..|types| - 1], types[|types| - 1];
      assert types == front + [g];
      FirstMatchAppend(front, g, pos);
      MatchBelow(front, pos);
      if g.path != [] && Follows(g.path[0], pos[0]) {
        FirstMatchAppend(Below(front, pos[0]), GenericType(g.path[1..], g.name), pos[1..]);
      }
      MatchesStep(g.path, pos);
    }
  }

  lemma MatchesStep(path: seq<string>, pos: seq<Step>)
    requires pos != []
    ensures Matches(path, pos) <==> path != [] && Follows(path[0], pos[0]) && Matches(path[1..], pos[1..])
  {
    if path != [] && Follows(path[0], pos[0]) && Matches(path[1..], pos[1..]) {
      forall i | 0 <= i < |path| ensures Follows(path[i], pos[i]) {
        if i > 0 { assert path[i] == path[1..][i - 1] && pos[i] == pos[1..][i - 1]; }
      }
    }
  }

  /** Segment by segment: "*" is any item of a list and any member of a map, anything else the member of that
      name. */
  predicate Leads(path: seq<string>, pos: seq<Step>) {
    |path| == |pos| && forall i :: 0 <= i < |path| ==> path[i] == "*" || (pos[i].Key? && pos[i].k == path[i])
  }

  /** A match is the name of the first type whose path leads to the position. */
  lemma {:induction false} FirstMatchLeads(types: seq<GenericType>, pos: seq<Step>)
    ensures FirstMatch(types, pos).None? <==> forall i :: 0 <= i < |types| ==> !Leads(types[i].path, pos)
    ensures FirstMatch(types, pos).Some? ==>
      exists i :: 0 <= i < |types| && Leads(types[i].path, pos) && types[i].name == FirstMatch(types, pos).value
        && forall j :: 0 <= j < i ==> !Leads(types[j].path, pos)
  {
    if types != [] {
      var rest := types[1..];
      FirstMatchLeads(rest, pos);
      assert forall i :: 0 <= i < |rest| ==> rest[i] == types[i + 1];
      assert Matches(types[0].path, pos) <==> Leads(types[0].path, pos);
      if !Leads(types[0].path, pos) && FirstMatch(rest, pos).Some? {
        var i :| 0 <= i < |rest| && Leads(rest[i].path, pos) && rest[i].name == FirstMatch(rest, pos).value
          && forall j :: 0 <= j < i ==> !Leads(rest[j].path, pos);
        assert forall j :: 0 < j < i + 1 ==> types[j] == rest[j - 1];
        assert Leads(types[i + 1].path, pos);
      }
    }
  }

  /** How the annotated node `r` relates to the node `o` it came from. */
  predicate Annotated(o: Value, r: Value, match_: Option<string>) {
    match o
    case UntypedMap(m) =>
      && r.UntypedMap?
      && r.entries.Keys == m.Keys + (if "class" !in m && match_.Some? then {"class"} else {})
      && ("class" !in m && match_.Some? ==> r.entries["class"] == Str(match_.value))
    case UntypedList(items) => r.UntypedList? && |r.items| == |items|
    case _ => r == o
  }

  /** Every original position is kept, and a map gains "class" exactly when it had none and some path
      matches it; the value is the first matching type. */
  lemma {:induction false} AnnotatedAt(types: seq<GenericType>, h: Value, pos: seq<Step>)
    requires Find(h, pos).Some?
    ensures Find(Annotate(types, h), pos).Some?
    ensures Annotated(Find(h, pos).value, Find(Annotate(types, h), pos).value, FirstMatch(types, pos))
    decreases |pos|
  {
    if pos == [] {
      MatchHere(types);
    } else {
      MatchBelow(types, pos);
      AnnotateChild(types, h, pos[0]);
      AnnotatedAt(Below(types, pos[0]), Child(h, pos[0]).value, pos[1..]);
    }
  }

  /** A position that is new is the "class" member of such a map, and nothing else. */
  lemma {:induction false} OnlyClassAdded(types: seq<GenericType>, h: Value, parent: seq<Step>, step: Step)
    requires Find(h, parent + [step]).None? && Find(Annotate(types, h), parent + [step]).Some?
    ensures step == Key("class")
    ensures Find(h, parent).Some? && Find(h, parent).value.UntypedMap? && "class" !in Find(h, parent).value.entries
    ensures FirstMatch(types, parent).Some?
    ensures Find(Annotate(types, h), parent + [step]) == Some(Str(FirstMatch(types, parent).value))
    decreases |parent|
  {
    var pos := parent + [step];
    AnnotateChild(types, h, pos[0]);
    if parent == [] {
      MatchHere(types);
      assert pos[1..] == [];
    } else {
      assert pos[1..] == parent[1..] + [step];
      MatchBelow(types, parent);
      OnlyClassAdded(Below(types, pos[0]), Child(h, pos[0]).value, parent[1..], step);
    }
  }
}
