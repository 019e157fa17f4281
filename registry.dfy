/** The entity/system registry of the 3-D viewer: entities carry named components, systems pick the
    entities their `test` accepts, and the registry (`ECS`) keeps both lists and a queue of entities
    whose system membership must be recomputed. The hooks subclasses override (`init`, `enter`,
    `exit`, `preUpdate`, `update`, `postUpdate`, `dispose`) change nothing here; each system records
    the calls it receives in a ghost log instead. */
module Registry {
  import opened Common
  import opened Lists

  /** A component's data: field name to value. */
  type Fields = map<string, int>

  /** A key and value of a data object, listed in `Object.keys` order. */
  type Entry = (string, int)

  /** The error `Object.keys` throws on a missing data object. */
  datatype RegistryError = TypeError

  /** A call of one of the hooks a system subclass overrides. */
  datatype Hook =
    | Init(ecs: ECS?)
    | Enter(entity: Entity)
    | Exit(entity: Entity)
    | PreUpdate
    | Update(entities: seq<Entity>, elapsed: real)
    | PostUpdate
    | Disposed

  /** Some entry carries key `k`. */
  ghost predicate Listed(entries: seq<Entry>, k: string) {
    exists j | 0 <= j < |entries| :: entries[j].0 == k
  }

  /** Entry `j` is the last one with its key. */
  ghost predicate LastOf(entries: seq<Entry>, j: int)
    requires 0 <= j < |entries|
  {
    forall j2 | j < j2 < |entries| :: entries[j2].0 != entries[j].0
  }

  /** The entries written into `target` one after another, later entries overwriting earlier ones. */
  function Apply(target: Fields, entries: seq<Entry>): Fields {
    if entries == [] then target
    else
      var n := |entries| - 1;
      Apply(target, entries[..n])[entries[n].0 := entries[n].1]
  }

  /** Writing the entries adds or overwrites exactly the listed keys, each with the value of its
      last entry, and every other key keeps its value. */
  lemma ApplyFields(target: Fields, entries: seq<Entry>)
    ensures forall k :: k in Apply(target, entries) <==> k in target || Listed(entries, k)
    ensures forall k | k in target && !Listed(entries, k) :: Apply(target, entries)[k] == target[k]
    ensures forall j | 0 <= j < |entries| && LastOf(entries, j) ::
      entries[j].0 in Apply(target, entries) && Apply(target, entries)[entries[j].0] == entries[j].1
  {
    ApplyKeys(target, entries);
    ApplyLast(target, entries);
  }

  /** A key is listed by some entry exactly when it is listed before the last one or by the last one. */
  lemma ListedSplit(entries: seq<Entry>, k: string)
    requires entries != []
    ensures Listed(entries, k) <==> Listed(entries[..|entries| - 1], k) || entries[|entries| - 1].0 == k
  {
    var before := entries[..|entries| - 1];
    if Listed(entries, k) && entries[|entries| - 1].0 != k {
      var j :| 0 <= j < |entries| && entries[j].0 == k;
      assert before[j].0 == k;
    }
    if Listed(before, k) {
      var j :| 0 <= j < |before| && before[j].0 == k;
      assert entries[j].0 == k;
    }
    assert entries[|entries| - 1].0 == k ==> Listed(entries, k);
  }

  /** The keys written are the listed ones; an unlisted key keeps its value. */
  lemma {:induction false} ApplyKeys(target: Fields, entries: seq<Entry>)
    ensures forall k :: k in Apply(target, entries) <==> k in target || Listed(entries, k)
    ensures forall k | k in target && !Listed(entries, k) :: Apply(target, entries)[k] == target[k]
  {
    if entries != [] {
      var n := |entries| - 1;
      ApplyKeys(target, entries[..n]);
      forall k ensures Listed(entries, k) <==> Listed(entries[..n], k) || entries[n].0 == k {
        ListedSplit(entries, k);
      }
    }
  }

  /** Every key ends up with the value of its last entry. */
  lemma {:induction false} ApplyLast(target: Fields, entries: seq<Entry>)
    ensures forall j | 0 <= j < |entries| && LastOf(entries, j) ::
      entries[j].0 in Apply(target, entries) && Apply(target, entries)[entries[j].0] == entries[j].1
  {
    if entries != [] {
      var n := |entries| - 1;
      var before := entries[..n];
      ApplyLast(target, before);
      forall j | 0 <= j < |entries| && LastOf(entries, j)
        ensures entries[j].0 in Apply(target, entries) && Apply(target, entries)[entries[j].0] == entries[j].1
      {
        if j < n {
          assert LastOf(before, j);
          assert before[j] == entries[j];
        }
      }
    }
  }

  /** The entries the copy loop of `updateComponent` reaches: it stops at the first empty key. */
  function BeforeEmptyKey(entries: seq<Entry>): (r: seq<Entry>)
    ensures |r| <= |entries| && r == entries[..|r|]
    ensures forall j | 0 <= j < |r| :: r[j].0 != ""
    ensures |r| < |entries| ==> entries[|r|].0 == ""
  {
    if entries == [] || entries[0].0 == "" then [] else [entries[0]] + BeforeEmptyKey(entries[1..])
  }

  /** The copy loop of `updateComponent` as written: the loop condition is the key itself, so an
      empty key ends the copy and the entries after it are not written. */
  method CopyFieldsAsWritten(target: Fields, entries: seq<Entry>) returns (r: Fields)
    ensures r == Apply(target, BeforeEmptyKey(entries))
  {
    r := target;
    var i := 0;
    while i < |entries| && entries[i].0 != ""
      invariant 0 <= i <= |BeforeEmptyKey(entries)|
      invariant r == Apply(target, entries[..i])
    {
      assert entries[..i + 1][..i] == entries[..i];
      r := r[entries[i].0 := entries[i].1];
      i := i + 1;
    }
    assert entries[..i] == BeforeEmptyKey(entries);
  }

  /** The copy loop run over every entry. */
  method CopyFields(target: Fields, entries: seq<Entry>) returns (r: Fields)
    ensures r == Apply(target, entries)
  {
    r := target;
    for i := 0 to |entries|
      invariant r == Apply(target, entries[..i])
    {
      assert entries[..i + 1][..i] == entries[..i];
      r := r[entries[i].0 := entries[i].1];
    }
    assert entries[..|entries|] == entries;
  }

  /** A data object whose first key is empty: the loop as written copies nothing, so the field `b`
      is never written, while copying every entry writes it. */
  lemma EmptyKeyStopsCopy()
    ensures var entries := [("", 1), ("b", 2)];
      "b" !in Apply(map[], BeforeEmptyKey(entries)) && "b" in Apply(map[], entries)
      && Apply(map[], entries)["b"] == 2
  {
    var entries := [("", 1), ("b", 2)];
    assert BeforeEmptyKey(entries) == [];
    ApplyFields(map[], entries);
    assert entries[1].0 == "b";
    assert LastOf(entries, 1);
  }

  /** The system-to-entity link is two-sided: `e` is listed by `s` as often as `s` is listed by `e`,
      and at most once. */
  ghost predicate Paired(s: System, e: Entity)
    reads s, e
  {
    multiset(s.entities)[e] == multiset(e.systems)[s] <= 1
  }

  /** The entities of `es` that `s` accepts, in order. */
  ghost function Accepted(s: System, es: seq<Entity>): seq<Entity>
    reads es`components
  {
    if es == [] then [] else Accepted(s, es[..|es| - 1]) + if s.Test(es[|es| - 1]) then [es[|es| - 1]] else []
  }

  /** The accepted entities are exactly those of `es` that `s` accepts, each as often as in `es`. */
  lemma {:induction false} AcceptedCount(s: System, es: seq<Entity>)
    ensures forall e | e in Accepted(s, es) :: e in es && s.Test(e)
    ensures forall e: Entity :: multiset(Accepted(s, es))[e] == if s.Test(e) then multiset(es)[e] else 0
  {
    if es != [] {
      var n := |es| - 1;
      AcceptedCount(s, es[..n]);
      assert es == es[..n] + [es[n]];
    }
  }

  /** One more entity: it is accepted after the others, or left out. */
  lemma AcceptedStep(s: System, es: seq<Entity>, i: nat)
    requires i < |es|
    ensures Accepted(s, es[..i + 1]) == Accepted(s, es[..i]) + if s.Test(es[i]) then [es[i]] else []
  {
    assert es[..i + 1][..i] == es[..i];
  }

  /** The `enter` calls for the entities, in order. */
  function Enters(es: seq<Entity>): seq<Hook> {
    if es == [] then [] else Enters(es[..|es| - 1]) + [Enter(es[|es| - 1])]
  }

  /** One more entity adds one more `enter` call at the end. */
  lemma EntersAppend(es: seq<Entity>, e: Entity)
    ensures Enters(es + [e]) == Enters(es) + [Enter(e)]
  {
    assert (es + [e])[..|es|] == es;
  }

  /** Appending is associative. */
  lemma AppendAssociates<T>(a: seq<T>, b: seq<T>, c: seq<T>)
    ensures a + b + c == a + (b + c)
  {
  }

  /** One more round of `addSystem`'s loop adds an `enter` call exactly when the entity is accepted. */
  lemma EntersStep(s: System, es: seq<Entity>, i: nat)
    requires i < |es|
    ensures Enters(Accepted(s, es[..i + 1])) == Enters(Accepted(s, es[..i])) + if s.Test(es[i]) then [Enter(es[i])] else []
  {
    AcceptedStep(s, es, i);
    if s.Test(es[i]) {
      EntersAppend(Accepted(s, es[..i]), es[i]);
    } else {
      assert Accepted(s, es[..i]) + [] == Accepted(s, es[..i]);
    }
  }

  /** The state after the first `i` rounds of `addSystem`'s loop, from the system's list `listed`
      and the entities' system lists `base` before it: the system lists the accepted entities among
      the first `i` in order, and each accepted entity has gained one link per copy among them. */
  ghost predicate Enrolled(system: System, es: seq<Entity>, i: nat, listed: seq<Entity>,
                           base: map<Entity, seq<System>>)
    requires i <= |es|
    reads system, es`systems, es`components
  {
    && system.entities == listed + Accepted(system, es[..i])
    && forall e | e in es :: e in base &&
         e.systems == base[e] + if system.Test(e) then Copies(system, CountIn(es, e, i)) else []
  }

  /** After the last round every entity has been counted. */
  lemma EnrolledAll(system: System, es: seq<Entity>, listed: seq<Entity>, base: map<Entity, seq<System>>)
    requires Enrolled(system, es, |es|, listed, base)
    ensures system.entities == listed + Accepted(system, es)
    ensures forall e | e in es ::
      e.systems == base[e] + if system.Test(e) then Copies(system, multiset(es)[e]) else []
  {
    assert es[..|es|] == es;
    forall e | e in es ensures CountIn(es, e, |es|) == multiset(es)[e] {
      CountInAll(es, e, |es|);
    }
  }

  /** The first position holding an entity with id `id`, or -1; `findIndex` with `e.id == id`. */
  function FindId(entities: seq<Entity>, id: int): (r: int)
    ensures -1 <= r < |entities|
    ensures r == -1 <==> forall e | e in entities :: e.id != id
    ensures r >= 0 ==> entities[r].id == id && forall k | 0 <= k < r :: entities[k].id != id
  {
    if entities == [] then -1
    else if entities[0].id == id then 0
    else
      var k := FindId(entities[1..], id);
      if k == -1 then -1 else k + 1
  }

  class Entity {
    const id: int
    var components: map<string, Fields>
    var systems: seq<System>
    var systemsDirty: bool
    var ecs: ECS?

    /** A fresh entity with its components already resolved to their data. */
    constructor (id: int, components: map<string, Fields>)
      ensures this.id == id && this.components == components
      ensures systems == [] && !systemsDirty && ecs == null
    {
      this.id := id;
      this.components := components;
      systems := [];
      systemsDirty := false;
      ecs := null;
    }

    /** `addToECS`: the registry is recorded first, and then the entity is marked dirty, which
        queues it there unless it was dirty already. */
    method AddToECS(ecs: ECS)
      modifies this, ecs
      ensures this.ecs == ecs && systemsDirty
      ensures ecs.dirty == if old(systemsDirty) then old(ecs.dirty) else old(ecs.dirty) + [this]
      ensures ecs.entities == old(ecs.entities) && ecs.systems == old(ecs.systems)
      ensures components == old(components) && systems == old(systems)
    {
      this.ecs := ecs;
      SetSystemsDirty();
    }

    /** `setSystemsDirty`: an entity in a registry that is not yet dirty becomes dirty and is queued
        once; a dirty entity or one outside any registry is not queued. */
    method SetSystemsDirty()
      modifies this, ecs
      ensures ecs == old(ecs) && components == old(components) && systems == old(systems)
      ensures systemsDirty == (old(systemsDirty) || ecs != null)
      ensures ecs != null ==> ecs.dirty == if old(systemsDirty) then old(ecs.dirty) else old(ecs.dirty) + [this]
      ensures ecs != null ==> ecs.entities == old(ecs.entities) && ecs.systems == old(ecs.systems)
    {
      if !systemsDirty && ecs != null {
        systemsDirty := true;
        ecs.dirty := ecs.dirty + [this];
      }
    }

    /** `addSystem`: the system is appended. */
    method AddSystem(system: System)
      modifies this`systems
      ensures systems == old(systems) + [system]
      ensures components == old(components) && systemsDirty == old(systemsDirty) && ecs == old(ecs)
    {
      systems := systems + [system];
    }

    /** `removeSystem`: the first copy of the system goes, if there is one; the rest keep their order. */
    method RemoveSystem(system: System)
      modifies this`systems
      ensures systems == RemoveFirst(old(systems), system)
      ensures components == old(components) && systemsDirty == old(systemsDirty) && ecs == old(ecs)
    {
      var index := IndexOf(systems, system);
      if index != -1 {
        systems := RemoveAt(systems, index);
      }
    }

    /** `addComponent`: the data, or empty data when none is given, is stored under the name, and
        the entity is marked dirty. */
    method AddComponent(name: string, data: Option<Fields>)
      modifies this, ecs
      ensures components == old(components)[name := if data.Some? then data.value else map[]]
      ensures HasComponent(name) && GetComponent(name) == Some(if data.Some? then data.value else map[])
      ensures ecs == old(ecs) && systems == old(systems)
      ensures systemsDirty == (old(systemsDirty) || ecs != null)
      ensures ecs != null ==> ecs.dirty == if old(systemsDirty) then old(ecs.dirty) else old(ecs.dirty) + [this]
      ensures ecs != null ==> ecs.entities == old(ecs.entities) && ecs.systems == old(ecs.systems)
    {
      components := components[name := if data.Some? then data.value else map[]];
      SetSystemsDirty();
    }

    /** `getComponent`: the data stored under the name, none when nothing is. */
    function GetComponent(name: string): (r: Option<Fields>)
      reads this
      ensures r.Some? <==> name in components
      ensures r.Some? ==> r.value == components[name]
    {
      if name in components then Some(components[name]) else None
    }

    /** `hasComponent`: stored data is never falsy, so this holds exactly when data is stored. */
    function HasComponent(name: string): (r: bool)
      reads this
      ensures r <==> GetComponent(name).Some?
    {
      name in components
    }

    /** `updateComponent`: without stored data it adds the component; with stored data and a
        missing data object `Object.keys` throws; otherwise the copy loop as written writes the
        entries before the first empty key into the stored data, other fields keep their values
        and the entity is not marked dirty. */
    method UpdateComponent(name: string, data: Option<seq<Entry>>) returns (outcome: Outcome<RegistryError>)
      modifies this, ecs
      ensures ecs == old(ecs) && systems == old(systems)
      ensures name !in old(components) ==> (outcome == Pass
        && components == old(components)[name := if data.Some? then Apply(map[], data.value) else map[]]
        && systemsDirty == (old(systemsDirty) || ecs != null)
        && (ecs != null ==> ecs.dirty == if old(systemsDirty) then old(ecs.dirty) else old(ecs.dirty) + [this]))
      ensures name in old(components) && data.None? ==> outcome == Fail(TypeError) && components == old(components)
      ensures name in old(components) && data.Some? ==> (outcome == Pass
        && components == old(components)[name := Apply(old(components)[name], BeforeEmptyKey(data.value))])
      ensures name in old(components) ==> systemsDirty == old(systemsDirty) && (ecs != null ==> unchanged(ecs))
      ensures ecs != null ==> ecs.entities == old(ecs.entities) && ecs.systems == old(ecs.systems)
    {
      if name !in components {
        AddComponent(name, if data.Some? then Some(Apply(map[], data.value)) else None);
        return Pass;
      }
      if data.None? {
        return Fail(TypeError);
      }
      var updated := CopyFieldsAsWritten(components[name], data.value);
      components := components[name := updated];
      return Pass;
    }

    /** The systems list the entity back, each once: what `System.addEntity` builds. */
    ghost predicate Unlinkable()
      reads this, systems
    {
      Distinct(systems) && forall s | s in systems :: this in s.entities
    }

    /** `dispose` as written: it walks `systems` by position while each `removeEntity` splices the
        current system out, so the walk skips every second system; the entity stays linked to the
        systems at odd positions. */
    method DisposeAsWritten()
      requires Unlinkable()
      modifies this`systems, systems`entities, systems`hooks
      ensures systems == Odds(old(systems))
      ensures DroppedEvens(old(systems), old(ListsOf(systems)), this)
      ensures ExitedEvens(old(systems), old(HooksOf(systems)), this)
    {
      ghost var start := systems;
      ghost var lists := ListsOf(systems);
      ghost var logs := HooksOf(systems);
      ghost var dropped := DropAll(lists, this);
      ListedEverywhere(start, this);
      WalkedStart(lists, dropped);
      WalkAll(start, lists, dropped, logs);
      var i := (|start| + 1) / 2;
      SurvivorsDone(start, i);
      WalkedDone(start, lists, dropped, i, this);
      ExitedDone(start, logs, i, this);
    }

    /** The loop of `dispose` as written: it stops once the position passes the shrinking list,
        after `(|start| + 1) / 2` rounds. */
    method WalkAll(ghost start: seq<System>, ghost lists: seq<seq<Entity>>, ghost dropped: seq<seq<Entity>>,
                   ghost logs: seq<seq<Hook>>)
      requires WalkPlan(this, start, lists, dropped) && Walking(start, lists, dropped, 0) && Logged(start, logs, 0)
      modifies this`systems, start`entities, start`hooks
      ensures Walking(start, lists, dropped, (|start| + 1) / 2) && Logged(start, logs, (|start| + 1) / 2)
    {
      var i := 0;
      while i < |systems|
        invariant WalkPlan(this, start, lists, dropped) && Walking(start, lists, dropped, i)
        invariant Logged(start, logs, i)
        decreases |start| + 1 - 2 * i
      {
        WalkStep(i, start, lists, dropped, logs);
        i := i + 1;
      }
      assert i == (|start| + 1) / 2;
    }

    /** The hooks logged by the walk in `dispose` after `i` rounds, from the systems' logs `logs`:
        the systems at even positions below `2i` have run `exit` for the entity. */
    ghost predicate Logged(start: seq<System>, logs: seq<seq<Hook>>, i: nat)
      reads start
    {
      |logs| == |start| && HooksOf(start) == Exited(logs, this, i)
    }

    /** The state of the walk in `dispose` after `i` rounds, from the entity's systems `start` with
        entity lists `lists`, each of which would be `dropped` without the entity: the systems at
        even positions below `2i` are gone from the entity and have dropped it, the rest are
        untouched. */
    ghost predicate Walking(start: seq<System>, lists: seq<seq<Entity>>, dropped: seq<seq<Entity>>, i: nat)
      reads this`systems, start
    {
      && 2 * i <= |start| + 1 && |systems| == |start| - i && |lists| == |dropped|
      && systems == Survivors(start, i) && ListsOf(start) == Walked(lists, dropped, i)
    }

    /** One round of the walk in `dispose`: the system at position `i`, the `2i`-th of the original
        list, drops the entity and the entity drops it. */
    method WalkStep(i: nat, ghost start: seq<System>, ghost lists: seq<seq<Entity>>, ghost dropped: seq<seq<Entity>>,
                    ghost logs: seq<seq<Hook>>)
      requires WalkPlan(this, start, lists, dropped) && i < |systems| && Walking(start, lists, dropped, i)
      requires Logged(start, logs, i)
      modifies this`systems, {start[2 * i]}`entities, {start[2 * i]}`hooks
      ensures Walking(start, lists, dropped, i + 1) && Logged(start, logs, i + 1)
    {
      DistinctSplit(start, 2 * i);
      SurvivorsStep(start, i);
      var system := systems[i];
      assert system == start[2 * i];
      assert system.entities == lists[2 * i] by {
        assert ListsOf(start)[2 * i] == Walked(lists, dropped, i)[2 * i];
      }
      assert system.hooks == logs[2 * i] by {
        assert HooksOf(start)[2 * i] == Exited(logs, this, i)[2 * i];
      }
      system.RemoveEntity(this);
      assert system.entities == dropped[2 * i];
      assert system.hooks == logs[2 * i] + [Exit(this)];
      forall k | 0 <= k < |start|
        ensures ListsOf(start)[k] == Walked(lists, dropped, i + 1)[k]
        ensures HooksOf(start)[k] == Exited(logs, this, i + 1)[k]
      {
        WalkedNext(lists, dropped, i, k);
        if k != 2 * i {
          assert start[k] != system;
          assert start[k].entities == old(ListsOf(start))[k] && start[k].hooks == old(HooksOf(start))[k];
        }
      }
    }

    /** `dispose` walking a copy of `systems`: the entity leaves every system it was in. */
    method Dispose()
      requires Unlinkable()
      modifies this`systems, systems`entities, systems`hooks
      ensures systems == []
      ensures forall s | s in old(systems) :: s.entities == RemoveFirst(old(s.entities), this)
      ensures forall s | s in old(systems) :: s.hooks == old(s.hooks) + [Exit(this)]
    {
      var snapshot := systems;
      for i := 0 to |snapshot|
        invariant systems == snapshot[i..]
        invariant forall k | 0 <= k < |snapshot| :: (snapshot[k].entities ==
          if k < i then RemoveFirst(old(snapshot[k].entities), this) else old(snapshot[k].entities))
        invariant forall k | 0 <= k < |snapshot| :: (snapshot[k].hooks ==
          if k < i then old(snapshot[k].hooks) + [Exit(this)] else old(snapshot[k].hooks))
      {
        assert this in snapshot[i].entities by {
          assert snapshot[i] in old(systems);
        }
        LeaveAt(snapshot, i);
      }
      forall s | s in old(systems)
        ensures s.entities == RemoveFirst(old(s.entities), this) && s.hooks == old(s.hooks) + [Exit(this)]
      {
        var k :| 0 <= k < |snapshot| && snapshot[k] == s;
      }
    }

    /** One round of `dispose`: the entity leaves the `i`th system of the copied list `snapshot`,
        which drops it and runs `exit`; every other system of the copy is untouched. */
    method LeaveAt(snapshot: seq<System>, i: nat)
      requires Distinct(snapshot) && i < |snapshot| && systems == snapshot[i..] && this in snapshot[i].entities
      modifies this`systems, {snapshot[i]}`entities, {snapshot[i]}`hooks
      ensures systems == snapshot[i + 1..]
      ensures snapshot[i].entities == RemoveFirst(old(snapshot[i].entities), this)
      ensures snapshot[i].hooks == old(snapshot[i].hooks) + [Exit(this)]
      ensures forall k | 0 <= k < |snapshot| && k != i ::
        snapshot[k].entities == old(snapshot[k].entities) && snapshot[k].hooks == old(snapshot[k].hooks)
    {
      var system := snapshot[i];
      DistinctSplit(snapshot, i);
      system.RemoveEntity(this);
      assert snapshot[i..] == [system] + snapshot[i + 1..];
      forall k | 0 <= k < |snapshot| && k != i
        ensures snapshot[k].entities == old(snapshot[k].entities) && snapshot[k].hooks == old(snapshot[k].hooks)
      {
        assert snapshot[k] != system;
      }
    }
  }

  /** What the walk in `dispose` starts from: distinct systems `start` with entity lists `lists`,
      each holding `e`, and `dropped`, the lists without their first copy of `e`. */
  ghost predicate WalkPlan(e: Entity, start: seq<System>, lists: seq<seq<Entity>>, dropped: seq<seq<Entity>>) {
    && Distinct(start) && |lists| == |start|
    && dropped == DropAll(lists, e) && (forall k | 0 <= k < |start| :: e in lists[k])
  }

  /** The entity lists of the systems, in order. */
  ghost function ListsOf(systems: seq<System>): seq<seq<Entity>>
    reads systems
  {
    seq(|systems|, k requires 0 <= k < |systems| reads systems => systems[k].entities)
  }

  /** The hook logs of the systems, in order. */
  ghost function HooksOf(systems: seq<System>): seq<seq<Hook>>
    reads systems
  {
    seq(|systems|, k requires 0 <= k < |systems| reads systems => systems[k].hooks)
  }

  /** What `dispose` as written leaves in the entity lists: the systems at even positions of `start`
      hold their old lists `lists` without their first copy of `e`, the others hold them unchanged. */
  ghost predicate DroppedEvens(start: seq<System>, lists: seq<seq<Entity>>, e: Entity)
    reads start
  {
    |lists| == |start| && forall k | 0 <= k < |start| ::
      start[k].entities == if k % 2 == 0 then RemoveFirst(lists[k], e) else lists[k]
  }

  /** What `dispose` as written leaves in the hook logs: the systems at even positions of `start`
      have run `exit` for `e` after their old logs `logs`, the others hold them unchanged. */
  ghost predicate ExitedEvens(start: seq<System>, logs: seq<seq<Hook>>, e: Entity)
    reads start
  {
    |logs| == |start| && forall k | 0 <= k < |start| ::
      start[k].hooks == if k % 2 == 0 then logs[k] + [Exit(e)] else logs[k]
  }

  /** The hook logs after `i` rounds of the walk in `dispose`: the systems at even positions below
      `2i` have run `exit` for `e`, the others hold their logs from before the walk. */
  ghost function Exited(logs: seq<seq<Hook>>, e: Entity, i: nat): seq<seq<Hook>> {
    seq(|logs|, k requires 0 <= k < |logs| => if k % 2 == 0 && k < 2 * i then logs[k] + [Exit(e)] else logs[k])
  }

  /** After the walk has passed the end, the systems at even positions have run `exit` once more
      and the others hold their old logs. */
  lemma ExitedDone(start: seq<System>, logs: seq<seq<Hook>>, i: nat, e: Entity)
    requires |logs| == |start| <= 2 * i && HooksOf(start) == Exited(logs, e, i)
    ensures ExitedEvens(start, logs, e)
  {
    forall k | 0 <= k < |start| ensures start[k].hooks == if k % 2 == 0 then logs[k] + [Exit(e)] else logs[k] {
      assert HooksOf(start)[k] == Exited(logs, e, i)[k];
    }
  }

  /** Each entity list with its first copy of `e` removed. */
  ghost function DropAll(lists: seq<seq<Entity>>, e: Entity): (r: seq<seq<Entity>>)
    ensures |r| == |lists| && forall k | 0 <= k < |lists| :: r[k] == RemoveFirst(lists[k], e)
  {
    if lists == [] then [] else DropAll(lists[..|lists| - 1], e) + [RemoveFirst(lists[|lists| - 1], e)]
  }

  /** An entity every listed system holds appears in each of their entity lists. */
  lemma ListedEverywhere(systems: seq<System>, e: Entity)
    requires forall s | s in systems :: e in s.entities
    ensures forall k | 0 <= k < |systems| :: e in ListsOf(systems)[k]
  {
    forall k | 0 <= k < |systems| ensures e in ListsOf(systems)[k] {
      assert systems[k] in systems;
    }
  }

  /** After the walk has passed the end, the systems at even positions have dropped the entity and
      the others hold their old lists. */
  lemma WalkedDone(start: seq<System>, lists: seq<seq<Entity>>, dropped: seq<seq<Entity>>, i: nat, e: Entity)
    requires dropped == DropAll(lists, e) && |start| <= 2 * i && ListsOf(start) == Walked(lists, dropped, i)
    ensures DroppedEvens(start, lists, e)
  {
    forall k | 0 <= k < |start| ensures start[k].entities == if k % 2 == 0 then RemoveFirst(lists[k], e) else lists[k] {
      assert ListsOf(start)[k] == Walked(lists, dropped, i)[k];
    }
  }

  lemma WalkedStart(lists: seq<seq<Entity>>, dropped: seq<seq<Entity>>)
    requires |lists| == |dropped|
    ensures Walked(lists, dropped, 0) == lists
  {
  }

  /** One more round of the walk changes only the list at position `2i`. */
  lemma WalkedNext(lists: seq<seq<Entity>>, dropped: seq<seq<Entity>>, i: nat, k: nat)
    requires |lists| == |dropped| && k < |lists|
    ensures Walked(lists, dropped, i + 1)[k] == if k == 2 * i then dropped[k] else Walked(lists, dropped, i)[k]
  {
  }

  /** In a list without repeats the element at `j` occurs neither before nor after `j`. */
  lemma DistinctSplit<T>(s: seq<T>, j: nat)
    requires Distinct(s) && j < |s|
    ensures s[j] !in s[..j] && s[j] !in s[j + 1..]
  {
    forall k | 0 <= k < |s| && k != j ensures s[k] != s[j] {
      DistinctAt(s, k, j);
    }
    var below, above := s[..j], s[j + 1..];
    forall k | 0 <= k < |below| ensures below[k] != s[j] {
      assert below[k] == s[k];
    }
    forall k | 0 <= k < |above| ensures above[k] != s[j] {
      assert above[k] == s[j + 1 + k];
    }
  }

  /** The list left after `i` rounds of the walk in `dispose`: the odd positions among the first
      `2i` elements, then the elements from `2i` on. */
  ghost function Survivors<T>(start: seq<T>, i: nat): (r: seq<T>)
    requires 2 * i <= |start| + 1
  {
    seq(|start| - i, k requires 0 <= k < |start| - i => if k < i then start[2 * k + 1] else start[k + i])
  }

  /** The entity lists after `i` rounds of the walk in `dispose`: the systems at even positions
      below `2i` have dropped the entity and the others hold their lists from before the walk. */
  ghost function Walked(lists: seq<seq<Entity>>, dropped: seq<seq<Entity>>, i: nat): (r: seq<seq<Entity>>)
    requires |lists| == |dropped|
  {
    seq(|lists|, k requires 0 <= k < |lists| => if k % 2 == 0 && k < 2 * i then dropped[k] else lists[k])
  }

  lemma DistinctAt<T>(s: seq<T>, j: nat, k: nat)
    requires Distinct(s) && j < |s| && k < |s| && j != k
    ensures s[j] != s[k]
  {
    if k < j {
      assert s[k] != s[j];
    }
  }

  /** A round of the walk: position `i` holds the `2i`-th original element, with only odd positions
      before it, and removing it there leaves the survivors of one more round. */
  lemma SurvivorsStep<T>(start: seq<T>, i: nat)
    requires 2 * i < |start| && start[2 * i] !in start[..2 * i]
    ensures Survivors(start, i)[i] == start[2 * i]
    ensures RemoveFirst(Survivors(start, i), start[2 * i]) == Survivors(start, i + 1)
  {
    var walked, x := Survivors(start, i), start[2 * i];
    var before := walked[..i];
    forall k | 0 <= k < i ensures before[k] != x {
      assert before[k] == start[..2 * i][2 * k + 1];
    }
    RemoveFirstAt(walked, i, x);
    var after, next := RemoveAt(walked, i), Survivors(start, i + 1);
    forall k | 0 <= k < |next| ensures after[k] == next[k] {
      if k < i {
        assert after[k] == walked[k];
      } else {
        assert after[k] == walked[k + 1];
      }
    }
  }

  /** Once the walk has passed the end, the survivors are the odd positions. */
  lemma SurvivorsDone<T>(start: seq<T>, i: nat)
    requires |start| <= 2 * i <= |start| + 1
    ensures Survivors(start, i) == Odds(start)
  {
    var odds, survivors := Odds(start), Survivors(start, i);
    assert |odds| == |survivors| == |start| - i;
    forall k | 0 <= k < |odds| ensures survivors[k] == odds[k] {
      OddsAt(start, k);
    }
  }

  class System {
    /** The subclass's `test`, a deterministic predicate of the entity's id and components. */
    const accepts: (int, map<string, Fields>) -> bool
    var entities: seq<Entity>
    var ecs: ECS?
    ghost var hooks: seq<Hook>

    /** The base system, whose `test` accepts no entity. */
    constructor ()
      ensures entities == [] && ecs == null && hooks == []
      ensures forall e: Entity :: !Test(e)
    {
      accepts := (id, components) => false;
      entities := [];
      ecs := null;
      hooks := [];
    }

    /** A subclass with its own `test`. */
    constructor WithTest(accepts: (int, map<string, Fields>) -> bool)
      ensures this.accepts == accepts && entities == [] && ecs == null && hooks == []
    {
      this.accepts := accepts;
      entities := [];
      ecs := null;
      hooks := [];
    }

    /** `test`. */
    predicate Test(e: Entity)
      reads e`components
    {
      accepts(e.id, e.components)
    }

    /** `addToECS`: the registry is recorded before `init` runs. */
    method AddToECS(ecs: ECS)
      modifies this`ecs, this`hooks
      ensures this.ecs == ecs && hooks == old(hooks) + [Init(ecs)]
    {
      this.ecs := ecs;
      hooks := hooks + [Init(this.ecs)];
    }

    /** `addEntity`: the link is made on both sides, then `enter` runs. */
    method AddEntity(e: Entity)
      modifies this`entities, this`hooks, e`systems
      ensures e.systems == old(e.systems) + [this] && entities == old(entities) + [e]
      ensures hooks == old(hooks) + [Enter(e)] && ecs == old(ecs)
      ensures e.components == old(e.components) && e.systemsDirty == old(e.systemsDirty) && e.ecs == old(e.ecs)
    {
      e.AddSystem(this);
      entities := entities + [e];
      hooks := hooks + [Enter(e)];
    }

    /** `removeEntity`: an entity the system does not list changes nothing; a listed one loses the
        link on both sides, then `exit` runs. */
    method RemoveEntity(e: Entity)
      modifies this`entities, this`hooks, e`systems
      ensures e !in old(entities) ==> unchanged(this, e)
      ensures e in old(entities) ==> (entities == RemoveFirst(old(entities), e)
        && e.systems == RemoveFirst(old(e.systems), this) && hooks == old(hooks) + [Exit(e)])
      ensures ecs == old(ecs)
      ensures e.components == old(e.components) && e.systemsDirty == old(e.systemsDirty) && e.ecs == old(e.ecs)
    {
      var index := IndexOf(entities, e);
      if index != -1 {
        e.RemoveSystem(this);
        entities := RemoveAt(entities, index);
        hooks := hooks + [Exit(e)];
      }
    }

    /** `addEntity` as written on a system made by any constructor of the source: none of them sets
        `entities`. The entity records the system, then `push` on the undefined list throws, so the
        link is one-sided and `enter` never runs. */
    method AddEntityAsWritten(e: Entity) returns (outcome: Outcome<RegistryError>)
      modifies e`systems
      ensures outcome == Fail(TypeError) && e.systems == old(e.systems) + [this]
      ensures entities == old(entities) && hooks == old(hooks)
    {
      e.AddSystem(this);
      outcome := Fail(TypeError);
    }

    /** `removeEntity` as written on such a system: `indexOf` on the undefined list throws before
        either side changes. */
    method RemoveEntityAsWritten(e: Entity) returns (outcome: Outcome<RegistryError>)
      ensures outcome == Fail(TypeError)
    {
      outcome := Fail(TypeError);
    }

    /** `updateAll`: `preUpdate`, then `update` with the entity list and the elapsed time, then
        `postUpdate`. */
    method UpdateAll(elapsed: real)
      modifies this
      ensures hooks == old(hooks) + [PreUpdate, Update(entities, elapsed), PostUpdate]
      ensures entities == old(entities) && ecs == old(ecs)
    {
      hooks := hooks + [PreUpdate];
      hooks := hooks + [Update(entities, elapsed)];
      hooks := hooks + [PostUpdate];
    }

    /** `dispose`. */
    method Dispose()
      modifies this
      ensures hooks == old(hooks) + [Disposed] && entities == old(entities) && ecs == old(ecs)
    {
      hooks := hooks + [Disposed];
    }
  }

  /** The hooks one reconciliation runs: `enter` when an unlinked entity is now accepted, `exit`
      when a linked one no longer is, nothing otherwise. */
  function ReconcileLog(linked: bool, accepted: bool, entity: Entity): seq<Hook> {
    if !linked && accepted then [Enter(entity)] else if linked && !accepted then [Exit(entity)] else []
  }

  /** The inner step of `cleanDirtyEntities`: link a paired entity that the system accepts but does
      not hold, unlink one it holds but no longer accepts. */
  method Reconcile(entity: Entity, system: System)
    requires Paired(system, entity)
    modifies entity`systems, system`entities, system`hooks
    ensures multiset(entity.systems) == old(multiset(entity.systems))[system := if system.Test(entity) then 1 else 0]
    ensures multiset(system.entities) == old(multiset(system.entities))[entity := if system.Test(entity) then 1 else 0]
    ensures Paired(system, entity) && (system in entity.systems <==> system.Test(entity))
    ensures entity.components == old(entity.components) && entity.systemsDirty == old(entity.systemsDirty)
    ensures entity.ecs == old(entity.ecs) && system.ecs == old(system.ecs)
    ensures system.hooks == old(system.hooks) + ReconcileLog(old(multiset(entity.systems))[system] > 0, system.Test(entity), entity)
  {
    ghost var linked, listed := entity.systems, system.entities;
    var index := IndexOf(entity.systems, system);
    var test := system.Test(entity);
    if index == -1 && test {
      system.AddEntity(entity);
      AppendCount(linked, system);
      AppendCount(listed, entity);
    } else if index != -1 && !test {
      system.RemoveEntity(entity);
      RemoveOnlyCount(linked, system);
      RemoveOnlyCount(listed, entity);
    }
  }

  /** The multiset `m` without the elements listed in `q`. */
  ghost function Drop<T>(m: multiset<T>, q: seq<T>): multiset<T> {
    if q == [] then m else Drop(m[q[0] := 0], q[1..])
  }

  /** An element of `q` is gone from `Drop(m, q)`; any other keeps its count. */
  lemma {:induction false} DropCount<T>(m: multiset<T>, q: seq<T>, x: T)
    ensures Drop(m, q)[x] == if x in q then 0 else m[x]
  {
    if q != [] {
      DropCount(m[q[0] := 0], q[1..], x);
      assert x in q <==> x == q[0] || x in q[1..];
    }
  }

  /** Multisets that agree outside `q` agree once `q` is dropped. */
  lemma DropAgree<T>(m1: multiset<T>, m2: multiset<T>, q: seq<T>)
    requires forall x | x !in q :: m1[x] == m2[x]
    ensures Drop(m1, q) == Drop(m2, q)
  {
    forall x ensures Drop(m1, q)[x] == Drop(m2, q)[x] {
      DropCount(m1, q, x);
      DropCount(m2, q, x);
    }
  }

  /** A round of `cleanDirtyEntities` that changes the systems' counts of one queued entity only,
      from `before`, keeps the systems' counts of the unqueued entities. */
  lemma KeptUnqueued(ecs: ECS, queue: seq<Entity>, entity: Entity, held: map<System, multiset<Entity>>,
                     before: map<System, multiset<Entity>>)
    requires entity in queue
    requires forall s | s in ecs.systems :: s in before && s in held && Drop(before[s], queue) == Drop(held[s], queue)
    requires forall s | s in ecs.systems :: multiset(s.entities)[entity := 0] == before[s][entity := 0]
    ensures ecs.KeepsUnqueued(queue, held)
  {
    forall s | s in ecs.systems ensures Drop(multiset(s.entities), queue) == Drop(held[s], queue) {
      forall x | x !in queue ensures multiset(s.entities)[x] == before[s][x] {
        assert multiset(s.entities)[x] == multiset(s.entities)[entity := 0][x];
        assert before[s][x] == before[s][entity := 0][x];
      }
      DropAgree(multiset(s.entities), before[s], queue);
    }
  }

  /** A round of `cleanDirtyEntities` that changes only one queued entity's links to the registry's
      systems, from `linked`, keeps every queued entity's links to the systems outside it. */
  lemma KeptOutside(ecs: ECS, queue: seq<Entity>, entity: Entity, links: map<Entity, multiset<System>>,
                    linked: multiset<System>)
    requires forall e | e in queue && e != entity ::
      e in links && Drop(multiset(e.systems), ecs.systems) == Drop(links[e], ecs.systems)
    requires entity in links && Drop(linked, ecs.systems) == Drop(links[entity], ecs.systems)
    requires forall s | s !in ecs.systems :: multiset(entity.systems)[s] == linked[s]
    ensures ecs.KeepsOutside(queue, links)
  {
    DropAgree(multiset(entity.systems), linked, ecs.systems);
  }

  class ECS {
    var entities: seq<Entity>
    var dirty: seq<Entity>
    var systems: seq<System>

    /** The constructor as written: it walks its own system list, still empty, instead of the
        systems it is given, so they are dropped. */
    constructor Init(given: seq<System>)
      ensures entities == [] && dirty == [] && systems == []
    {
      entities := [];
      dirty := [];
      systems := [];
    }

    /** The constructor adding each given system in order. */
    constructor WithSystems(given: seq<System>)
      modifies given
      ensures entities == [] && dirty == [] && systems == given
      ensures forall s | s in given :: s.ecs == this && s.entities == old(s.entities)
    {
      entities := [];
      dirty := [];
      systems := [];
      new;
      for i := 0 to |given|
        invariant entities == [] && dirty == [] && systems == given[..i]
        invariant forall k | 0 <= k < i :: given[k].ecs == this
        invariant forall s | s in given :: s.entities == old(s.entities)
      {
        AddSystem(given[i]);
        assert given[..i + 1] == given[..i] + [given[i]];
      }
      assert given[..|given|] == given;
    }

    /** `getEntityById`: the first entity with the id, none when no entity has it. */
    function GetEntityById(id: int): (r: Option<Entity>)
      reads this
      ensures r.None? <==> forall e | e in entities :: e.id != id
      ensures r.Some? ==> r.value in entities && r.value.id == id
      ensures r.Some? ==> exists k | 0 <= k < |entities| ::
        r.value == entities[k] && forall j | 0 <= j < k :: entities[j].id != id
    {
      var index := FindId(entities, id);
      if index == -1 then None else Some(entities[index])
    }

    /** `addEntity`: the entity is appended and joins the registry, which queues it unless it was
        dirty already. */
    method AddEntity(entity: Entity)
      modifies this, entity
      ensures entities == old(entities) + [entity] && systems == old(systems)
      ensures dirty == if old(entity.systemsDirty) then old(dirty) else old(dirty) + [entity]
      ensures entity.ecs == this && entity.systemsDirty
      ensures entity.components == old(entity.components) && entity.systems == old(entity.systems)
    {
      entities := entities + [entity];
      entity.AddToECS(this);
    }

    /** `removeEntityIfDirty`: the first queued copy of the entity leaves the queue. */
    method RemoveEntityIfDirty(entity: Entity)
      modifies this
      ensures dirty == RemoveFirst(old(dirty), entity)
      ensures entities == old(entities) && systems == old(systems)
    {
      var index := IndexOf(dirty, entity);
      if index != -1 {
        dirty := RemoveAt(dirty, index);
      }
    }

    /** `removeEntity`: an entity that is not listed gives null and changes nothing; a listed one
        is disposed as written, which unlinks it only from the systems at even positions of its
        list, then leaves the queue and the list, and is returned. Its dirty flag, components and
        registry are kept. */
    method RemoveEntity(entity: Entity) returns (r: Entity?)
      requires entity in entities ==> entity.Unlinkable()
      modifies this, entity, entity.systems
      ensures entity !in old(entities) ==> r == null && unchanged(this, entity)
      ensures entity in old(entities) ==> (r == entity
        && entities == RemoveAt(old(entities), IndexOf(old(entities), entity))
        && dirty == RemoveFirst(old(dirty), entity) && entity.systems == Odds(old(entity.systems))
        && DroppedEvens(old(entity.systems), old(ListsOf(entity.systems)), entity)
        && ExitedEvens(old(entity.systems), old(HooksOf(entity.systems)), entity))
      ensures systems == old(systems)
      ensures entity.systemsDirty == old(entity.systemsDirty) && entity.components == old(entity.components)
      ensures entity.ecs == old(entity.ecs)
    {
      var index := IndexOf(entities, entity);
      if index == -1 {
        return null;
      }
      r := RemoveListed(index);
    }

    /** The common tail of `removeEntity` and `removeEntityById`: the entity at `index` is disposed
        as written (it leaves the systems at even positions of its list and keeps the others), then
        it leaves the queue, then the list. */
    method RemoveListed(index: nat) returns (r: Entity)
      requires index < |entities| && entities[index].Unlinkable()
      modifies this, entities[index], entities[index].systems
      ensures r == old(entities[index]) && entities == RemoveAt(old(entities), index)
      ensures dirty == RemoveFirst(old(dirty), r) && systems == old(systems) && r.systems == Odds(old(r.systems))
      ensures DroppedEvens(old(r.systems), old(ListsOf(r.systems)), r)
      ensures ExitedEvens(old(r.systems), old(HooksOf(r.systems)), r)
      ensures forall e | e in old(entities) ::
        e.systemsDirty == old(e.systemsDirty) && e.components == old(e.components) && e.ecs == old(e.ecs)
      ensures forall e | e in old(entities) && e != r :: e.systems == old(e.systems)
    {
      r := entities[index];
      r.DisposeAsWritten();
      forall e | e in old(entities)
        ensures e.systemsDirty == old(e.systemsDirty) && e.components == old(e.components) && e.ecs == old(e.ecs)
        ensures e != r ==> e.systems == old(e.systems)
      {
      }
      RemoveEntityIfDirty(r);
      entities := RemoveAt(entities, index);
    }

    /** The systems of the first entity with the id, which `removeEntityById` unlinks. */
    function SystemsOfId(id: int): seq<System>
      reads this, entities
    {
      var index := FindId(entities, id);
      if index == -1 then [] else entities[index].systems
    }

    /** `removeEntityById`: like `removeEntity`, for the first entity with the id; every entity
        keeps its dirty flag, components and registry, and every other entity its systems. */
    method RemoveEntityById(id: int) returns (r: Entity?)
      requires FindId(entities, id) >= 0 ==> entities[FindId(entities, id)].Unlinkable()
      modifies this, entities, SystemsOfId(id)
      ensures r == null <==> FindId(old(entities), id) == -1
      ensures r == null ==> entities == old(entities) && dirty == old(dirty)
      ensures r != null ==> r == old(entities)[FindId(old(entities), id)] && r.id == id
      ensures r != null ==> entities == RemoveAt(old(entities), FindId(old(entities), id)) && dirty == RemoveFirst(old(dirty), r)
      ensures r != null ==> r.systems == Odds(old(r.systems))
      ensures r != null ==> DroppedEvens(old(r.systems), old(ListsOf(r.systems)), r)
      ensures r != null ==> ExitedEvens(old(r.systems), old(HooksOf(r.systems)), r)
      ensures systems == old(systems)
      ensures forall e | e in old(entities) ::
        e.systemsDirty == old(e.systemsDirty) && e.components == old(e.components) && e.ecs == old(e.ecs)
      ensures forall e | e in old(entities) && e != r :: e.systems == old(e.systems)
    {
      var index := FindId(entities, id);
      if index == -1 {
        return null;
      }
      r := RemoveListed(index);
    }

    /** `addSystem`: the system is appended, enrols every listed entity it accepts (an entity listed
        twice, twice) and then joins the registry. */
    method AddSystem(system: System)
      modifies this, system, entities
      ensures systems == old(systems) + [system] && entities == old(entities) && dirty == old(dirty)
      ensures system.entities == old(system.entities) + Accepted(system, entities)
      ensures system.ecs == this
      ensures system.hooks == old(system.hooks) + Enters(Accepted(system, entities)) + [Hook.Init(this)]
      ensures forall e | e in entities ::
        e.systems == old(e.systems) + if system.Test(e) then Copies(system, multiset(entities)[e]) else []
      ensures forall e | e in entities ::
        e.components == old(e.components) && e.systemsDirty == old(e.systemsDirty) && e.ecs == old(e.ecs)
    {
      systems := systems + [system];
      EnrolAll(system, entities);
      system.AddToECS(this);
    }

    /** The loop of `addSystem`: every entity of `es` the system accepts is added to it, in order. */
    method EnrolAll(system: System, es: seq<Entity>)
      modifies system`entities, system`hooks, es`systems
      ensures system.entities == old(system.entities) + Accepted(system, es)
      ensures system.hooks == old(system.hooks) + Enters(Accepted(system, es))
      ensures forall e | e in es ::
        e.systems == old(e.systems) + if system.Test(e) then Copies(system, multiset(es)[e]) else []
      ensures forall e | e in es ::
        e.components == old(e.components) && e.systemsDirty == old(e.systemsDirty) && e.ecs == old(e.ecs)
    {
      ghost var listed := system.entities;
      ghost var base := map e | e in es :: e.systems;
      ghost var logged := system.hooks;
      assert Enrolled(system, es, 0, listed, base);
      for i := 0 to |es|
        invariant Enrolled(system, es, i, listed, base)
        invariant system.hooks == logged + Enters(Accepted(system, es[..i]))
      {
        EnrolRound(system, es, i, listed, base, logged);
      }
      assert es[..|es|] == es;
      EnrolledAll(system, es, listed, base);
    }

    /** `EnrolAt` together with the `enter` calls logged so far. */
    method EnrolRound(system: System, es: seq<Entity>, i: nat, ghost listed: seq<Entity>,
                      ghost base: map<Entity, seq<System>>, ghost logged: seq<Hook>)
      requires i < |es| && Enrolled(system, es, i, listed, base)
      requires system.hooks == logged + Enters(Accepted(system, es[..i]))
      modifies system`entities, system`hooks, es`systems
      ensures Enrolled(system, es, i + 1, listed, base)
      ensures system.hooks == logged + Enters(Accepted(system, es[..i + 1]))
    {
      ghost var accepted, next := Accepted(system, es[..i]), Accepted(system, es[..i + 1]);
      ghost var step := if system.Test(es[i]) then [Enter(es[i])] else [];
      EntersStep(system, es, i);
      EnrolAt(system, es, i, listed, base);
      assert system.hooks == logged + Enters(accepted) + step;
      AppendAssociates(logged, Enters(accepted), step);
      assert Accepted(system, es[..i + 1]) == next;
    }

    /** One round of the loop in `addSystem`: the `i`th entity is added to the system if it is
        accepted, which takes the enrolment one entity further. */
    method EnrolAt(system: System, es: seq<Entity>, i: nat, ghost listed: seq<Entity>,
                   ghost base: map<Entity, seq<System>>)
      requires i < |es| && Enrolled(system, es, i, listed, base)
      modifies system`entities, system`hooks, es`systems
      ensures Enrolled(system, es, i + 1, listed, base)
      ensures system.hooks == old(system.hooks) + if system.Test(es[i]) then [Enter(es[i])] else []
    {
      var e := es[i];
      AcceptedStep(system, es, i);
      ghost var accepted := Accepted(system, es[..i]);
      label Step:
      if system.Test(e) {
        system.AddEntity(e);
      }
      assert Accepted(system, es[..i]) == accepted;
      forall f | f in es ensures f.systems ==
        base[f] + if system.Test(f) then Copies(system, CountIn(es, f, i + 1)) else []
      {
        if f != e {
          assert f.systems == old@Step(f.systems);
        }
      }
    }

    /** `removeSystem`: a listed system loses its first place and is disposed; an unlisted one
        changes nothing. Its entities keep their links. */
    method RemoveSystem(system: System)
      modifies this, system
      ensures systems == RemoveFirst(old(systems), system)
      ensures entities == old(entities) && dirty == old(dirty)
      ensures system in old(systems) ==> system.hooks == old(system.hooks) + [Disposed]
      ensures system !in old(systems) ==> unchanged(system)
      ensures system.entities == old(system.entities) && system.ecs == old(system.ecs)
    {
      var index := IndexOf(systems, system);
      if index != -1 {
        systems := RemoveAt(systems, index);
        system.Dispose();
      }
    }

    /** The inner loop of `cleanDirtyEntities`: one entity is reconciled with every system; the
        systems keep every other entity as often as before. */
    method ReconcileEntity(entity: Entity)
      requires forall s | s in systems :: Paired(s, entity)
      modifies entity`systems, systems`entities, systems`hooks
      ensures forall s | s in systems :: Paired(s, entity) && (s in entity.systems <==> s.Test(entity))
      ensures entity.components == old(entity.components) && entity.systemsDirty == old(entity.systemsDirty)
      ensures entity.ecs == old(entity.ecs)
      ensures forall s | s in systems :: multiset(s.entities)[entity := 0] == old(multiset(s.entities))[entity := 0]
      ensures forall s | s !in systems :: multiset(entity.systems)[s] == old(multiset(entity.systems))[s]
    {
      for j := 0 to |systems|
        invariant forall s | s !in systems :: multiset(entity.systems)[s] == old(multiset(entity.systems))[s]
        invariant forall s | s in systems :: Paired(s, entity)
        invariant forall k | 0 <= k < j :: systems[k] in entity.systems <==> systems[k].Test(entity)
        invariant forall s | s in systems :: multiset(s.entities)[entity := 0] == old(multiset(s.entities))[entity := 0]
      {
        ReconcileRound(entity, j);
      }
    }

    /** One round of the inner loop of `cleanDirtyEntities`: the entity is reconciled with the
        system at position `j`, and every other link is kept. */
    method ReconcileRound(entity: Entity, j: nat)
      requires j < |systems| && forall s | s in systems :: Paired(s, entity)
      requires forall k | 0 <= k < j :: systems[k] in entity.systems <==> systems[k].Test(entity)
      modifies entity`systems, systems`entities, systems`hooks
      ensures forall s | s in systems :: Paired(s, entity)
      ensures forall k | 0 <= k < j + 1 :: systems[k] in entity.systems <==> systems[k].Test(entity)
      ensures forall s | s in systems :: multiset(s.entities)[entity := 0] == old(multiset(s.entities))[entity := 0]
      ensures forall s | s !in systems :: multiset(entity.systems)[s] == old(multiset(entity.systems))[s]
    {
      var system := systems[j];
      Reconcile(entity, system);
      forall s | s in systems && s != system
        ensures s.entities == old(s.entities)
        ensures multiset(entity.systems)[s] == old(multiset(entity.systems)[s])
      {
      }
      forall k | 0 <= k < j + 1 ensures systems[k] in entity.systems <==> systems[k].Test(entity) {
        if systems[k] != system {
          assert multiset(entity.systems)[systems[k]] == old(multiset(entity.systems)[systems[k]]);
        }
      }
      assert multiset(system.entities)[entity := 0] == old(multiset(system.entities))[entity := 0];
    }

    /** The state of `cleanDirtyEntities` after `i` rounds: every queued entity is still paired with
        every system, and the first `i` are clean and in exactly the systems that accept them. */
    ghost predicate Cleaned(queue: seq<Entity>, i: nat)
      requires i <= |queue|
      reads this`systems, systems, queue
    {
      && (forall e, s | e in queue && s in systems :: Paired(s, e))
      && (forall k | 0 <= k < i :: !queue[k].systemsDirty)
      && (forall k, s | 0 <= k < i && s in systems :: s in queue[k].systems <==> s.Test(queue[k]))
    }

    /** Every system holds every entity outside the queue as often as it did in `held`. */
    ghost predicate KeepsUnqueued(queue: seq<Entity>, held: map<System, multiset<Entity>>)
      reads this`systems, systems
    {
      forall s | s in systems :: s in held && Drop(multiset(s.entities), queue) == Drop(held[s], queue)
    }

    /** Every queued entity holds every system outside the registry as often as it did in `links`. */
    ghost predicate KeepsOutside(queue: seq<Entity>, links: map<Entity, multiset<System>>)
      reads this`systems, queue
    {
      forall e | e in queue :: e in links && Drop(multiset(e.systems), systems) == Drop(links[e], systems)
    }

    /** After the last round every queued entity is in exactly the systems that accept it. */
    lemma CleanedAll(queue: seq<Entity>)
      requires Cleaned(queue, |queue|)
      ensures forall e, s | e in queue && s in systems :: Paired(s, e) && (s in e.systems <==> s.Test(e))
    {
      forall e, s | e in queue && s in systems ensures s in e.systems <==> s.Test(e) {
        var k :| 0 <= k < |queue| && queue[k] == e;
      }
    }

    /** The counts `KeepsUnqueued` keeps, entity by entity. */
    lemma UnqueuedCounts(queue: seq<Entity>, held: map<System, multiset<Entity>>)
      requires KeepsUnqueued(queue, held)
      ensures forall s, e | s in systems && e !in queue :: multiset(s.entities)[e] == held[s][e]
    {
      forall s, e | s in systems && e !in queue ensures multiset(s.entities)[e] == held[s][e] {
        DropCount(multiset(s.entities), queue, e);
        DropCount(held[s], queue, e);
      }
    }

    /** The links `KeepsOutside` keeps, system by system. */
    lemma OutsideCounts(queue: seq<Entity>, links: map<Entity, multiset<System>>)
      requires KeepsOutside(queue, links)
      ensures forall e, s | e in queue && s !in systems :: multiset(e.systems)[s] == links[e][s]
    {
      forall e, s | e in queue && s !in systems ensures multiset(e.systems)[s] == links[e][s] {
        DropCount(multiset(e.systems), systems, s);
        DropCount(links[e], systems, s);
      }
    }

    /** One round of `cleanDirtyEntities`: the `i`th queued entity is reconciled with every system
        and marked clean; the systems' counts of other entities and the entity's links to systems
        outside the registry are kept. */
    method CleanAt(queue: seq<Entity>, i: nat)
      requires i < |queue| && Cleaned(queue, i)
      modifies {queue[i]}`systems, {queue[i]}`systemsDirty, systems`entities, systems`hooks
      ensures Cleaned(queue, i + 1)
      ensures forall s | s in systems :: multiset(s.entities)[queue[i] := 0] == old(multiset(s.entities))[queue[i] := 0]
      ensures forall s | s !in systems :: multiset(queue[i].systems)[s] == old(multiset(queue[i].systems))[s]
    {
      var entity := queue[i];
      label Step:
      ReconcileEntity(entity);
      entity.systemsDirty := false;
      forall e, s | e in queue && s in systems && e != entity ensures Paired(s, e) {
        assert multiset(s.entities)[e] == multiset(s.entities)[entity := 0][e];
        assert old@Step(multiset(s.entities))[e] == old@Step(multiset(s.entities))[entity := 0][e];
      }
    }

    /** `CleanAt` together with the frame facts it keeps across the whole queue. */
    method CleanRound(queue: seq<Entity>, i: nat, ghost held: map<System, multiset<Entity>>,
                      ghost links: map<Entity, multiset<System>>)
      requires i < |queue| && Cleaned(queue, i) && KeepsUnqueued(queue, held) && KeepsOutside(queue, links)
      modifies {queue[i]}`systems, {queue[i]}`systemsDirty, systems`entities, systems`hooks
      ensures Cleaned(queue, i + 1) && KeepsUnqueued(queue, held) && KeepsOutside(queue, links)
    {
      ghost var before := map s | s in systems :: multiset(s.entities);
      ghost var linked := multiset(queue[i].systems);
      CleanAt(queue, i);
      KeptUnqueued(this, queue, queue[i], held, before);
      KeptOutside(this, queue, queue[i], links, linked);
    }

    /** The rounds of `cleanDirtyEntities`, one per queued entity. */
    method CleanQueue(queue: seq<Entity>)
      requires forall e, s | e in queue && s in systems :: Paired(s, e)
      modifies queue`systems, queue`systemsDirty, systems`entities, systems`hooks
      ensures forall e | e in queue :: !e.systemsDirty
      ensures forall e, s | e in queue && s in systems :: Paired(s, e) && (s in e.systems <==> s.Test(e))
      ensures forall s, e | s in systems && e !in queue :: multiset(s.entities)[e] == old(multiset(s.entities))[e]
      ensures forall e, s | e in queue && s !in systems :: multiset(e.systems)[s] == old(multiset(e.systems))[s]
    {
      ghost var held := map s | s in systems :: multiset(s.entities);
      ghost var links := map e | e in queue :: multiset(e.systems);
      for i := 0 to |queue|
        invariant Cleaned(queue, i) && KeepsUnqueued(queue, held) && KeepsOutside(queue, links)
      {
        CleanRound(queue, i, held, links);
      }
      CleanedAll(queue);
      UnqueuedCounts(queue, held);
      OutsideCounts(queue, links);
    }

    /** `cleanDirtyEntities`: every queued entity is reconciled with every system and marked clean,
        and the queue is emptied. Afterwards each such entity is in exactly the systems that
        accept it, the links staying two-sided; the systems hold every other entity as often as
        before, and the queued entities keep their links to systems outside the registry. */
    method CleanDirtyEntities()
      requires forall e, s | e in dirty && s in systems :: Paired(s, e)
      modifies this, dirty, systems
      ensures dirty == [] && entities == old(entities) && systems == old(systems)
      ensures forall e | e in old(dirty) ::
        !e.systemsDirty && e.components == old(e.components) && e.ecs == old(e.ecs)
      ensures forall e, s | e in old(dirty) && s in systems :: Paired(s, e) && (s in e.systems <==> s.Test(e))
      ensures forall s, e | s in systems && e !in old(dirty) :: multiset(s.entities)[e] == old(multiset(s.entities))[e]
      ensures forall e, s | e in old(dirty) && s !in systems :: multiset(e.systems)[s] == old(multiset(e.systems))[s]
    {
      CleanQueue(dirty);
      dirty := [];
    }
  }
}
