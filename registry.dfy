/**
 * The process-wide recipe registry and decay-chain cache: the static
 * containers `recipes_`, `decay_chains_` and `decay_times_`, the state-id
 * counter `nextStateID_`, and the set of state ids already written to the
 * isotopics table.  The source keeps them as class statics; here they are
 * the fields of one explicit registry object.
 */
module Registry {

  import opened Wrappers
  import opened Nuclides
  import opened CycErrors
  import opened CompMaps
  import opened Compositions

  /**
   * The containers refer only to compositions of `repr`, and the two decay
   * indexes agree: every parent has a time set equal to its daughters' times.
   */
  ghost predicate Indexed(recipes: map<string, Composition>, chains: map<Composition, map<int, Composition>>,
                          times: map<Composition, set<int>>, repr: set<Composition>)
  {
    && (forall name | name in recipes :: recipes[name] in repr)
    && Closed(chains, repr)
    && (forall p | p in times :: p in chains) && (forall p | p in chains :: p in times)
    && (forall p, t | p in chains && p in times :: t in times[p] <==> t in chains[p])
  }

  /** Every parent and every daughter in `chains` belongs to `repr`. */
  ghost predicate Closed(chains: map<Composition, map<int, Composition>>, repr: set<Composition>)
  {
    && (forall p | p in chains :: p in repr)
    && (forall p, t | p in chains && t in chains[p] :: chains[p][t] in repr)
  }

  /**
   * A decay law: the absolute quantities of a composition and a time in
   * months give the quantities after that much decay.
   */
  type DecayLaw = (CompMap, int) -> CompMap

  /** `child` holds what `law` makes of `parent` after `time` months. */
  ghost predicate DecayOf(law: DecayLaw, child: Composition, parent: Composition, time: int)
    reads child`fractions, child`massNorm, parent`fractions, parent`massNorm
  {
    child.Masses() == law(parent.Masses(), time)
  }

  /**
   * What a logged composition holds, and so keeps: its fractions, its mass
   * normaliser and its decay provenance.
   */
  datatype Snapshot = Snapshot(fractions: CompMap, massNorm: real, parent: Composition?, decayTime: int)
  {
    /** The absolute quantities the snapshot stands for. */
    function Held(): CompMap
    {
      Scale(fractions, massNorm)
    }
  }

  /**
   * Every parent and daughter cached in `chains` has a snapshot in
   * `frozen`, and every daughter names its parent and its time as its
   * provenance and holds what `law` makes of its parent's quantities over
   * that time.
   */
  ghost predicate Decayed(law: DecayLaw, chains: map<Composition, map<int, Composition>>,
                          frozen: map<Composition, Snapshot>)
  {
    forall p, t | p in chains && t in chains[p] ::
      && p in frozen && chains[p][t] in frozen
      && frozen[chains[p][t]].parent == p && frozen[chains[p][t]].decayTime == t
      && frozen[chains[p][t]].Held() == law(frozen[p].Held(), t)
  }

  /** Taking the snapshot of one more composition keeps every cached daughter decayed. */
  lemma DecayedFreeze(law: DecayLaw, chains: map<Composition, map<int, Composition>>,
                      frozen: map<Composition, Snapshot>, c: Composition, s: Snapshot)
    requires Decayed(law, chains, frozen) && c !in frozen
    ensures Decayed(law, chains, frozen[c := s])
  {
  }

  /** A new, empty entry for a parent keeps every cached daughter decayed. */
  lemma DecayedStore(law: DecayLaw, chains: map<Composition, map<int, Composition>>,
                     frozen: map<Composition, Snapshot>, c: Composition)
    requires Decayed(law, chains, frozen)
    ensures Decayed(law, chains[c := map[]], frozen)
  {
  }

  /** Caching a daughter that is its parent decayed keeps every cached daughter decayed. */
  lemma DecayedDaughter(law: DecayLaw,
                                           chains: map<Composition, map<int, Composition>>,
                                           frozen: map<Composition, Snapshot>,
                                           parent: Composition, child: Composition, time: int)
    requires Decayed(law, chains, frozen) && parent in frozen && child in frozen
    requires frozen[child].parent == parent && frozen[child].decayTime == time
    requires frozen[child].Held() == law(frozen[parent].Held(), time)
    ensures Decayed(law, chains[parent := DaughtersIn(chains, parent)[time := child]], frozen)
  {
    var chains' := chains[parent := DaughtersIn(chains, parent)[time := child]];
    forall p, t | p in chains' && t in chains'[p]
      ensures p in frozen && chains'[p][t] in frozen
      ensures frozen[chains'[p][t]].parent == p && frozen[chains'[p][t]].decayTime == t
      ensures frozen[chains'[p][t]].Held() == law(frozen[p].Held(), t)
    {
      if p == parent && t == time {
      } else {
        assert chains'[p][t] == chains[p][t];
      }
    }
  }

  /** The composition `recipes` files under `name`, or the failure to find one. */
  function RecipeIn(recipes: map<string, Composition>, name: string): (r: Result<Composition, CycError>)
  {
    if name in recipes then Success(recipes[name]) else Failure(UnknownRecipe(name))
  }

  /** The daughters `chains` caches for `parent`, by decay time. */
  function DaughtersIn(chains: map<Composition, map<int, Composition>>, parent: Composition): map<int, Composition>
  {
    if parent in chains then chains[parent] else map[]
  }

  /** The decay times `times` records for `parent`. */
  function TimesIn(times: map<Composition, set<int>>, parent: Composition): set<int>
  {
    if parent in times then times[parent] else {}
  }

  /** Logging more compositions keeps the containers indexed. */
  lemma IndexedGrow(recipes: map<string, Composition>, chains: map<Composition, map<int, Composition>>,
                    times: map<Composition, set<int>>, repr: set<Composition>, more: set<Composition>)
    requires Indexed(recipes, chains, times, repr)
    ensures Indexed(recipes, chains, times, repr + more)
  {
  }

  /** Filing a logged composition under a name keeps the containers indexed. */
  lemma IndexedName(recipes: map<string, Composition>, chains: map<Composition, map<int, Composition>>,
                    times: map<Composition, set<int>>, repr: set<Composition>, name: string, c: Composition)
    requires Indexed(recipes, chains, times, repr) && c in repr
    ensures Indexed(recipes[name := c], chains, times, repr)
  {
  }

  /** A new, empty entry in both decay indexes keeps them in agreement. */
  lemma IndexedStore(recipes: map<string, Composition>, chains: map<Composition, map<int, Composition>>,
                     times: map<Composition, set<int>>, repr: set<Composition>, c: Composition)
    requires Indexed(recipes, chains, times, repr) && c in repr
    ensures Indexed(recipes, chains[c := map[]], times[c := {}], repr)
  {
    var chains', times' := chains[c := map[]], times[c := {}];
    assert forall p :: p in times'.Keys <==> p in chains'.Keys;
    var none: map<int, Composition> := map[];
    assert forall t :: t in none.Keys <==> t in {};
  }

  /**
   * Caching a daughter of a logged parent, and adding its time to the
   * parent's times, keeps the containers indexed.
   */
  lemma IndexedDaughter(recipes: map<string, Composition>, chains: map<Composition, map<int, Composition>>,
                        times: map<Composition, set<int>>, repr: set<Composition>,
                        parent: Composition, child: Composition, time: int)
    requires Indexed(recipes, chains, times, repr) && parent in repr && child in repr
    ensures Indexed(recipes, chains[parent := DaughtersIn(chains, parent)[time := child]],
                    times[parent := TimesIn(times, parent) + {time}], repr)
  {
    var daughters, known := DaughtersIn(chains, parent), TimesIn(times, parent);
    var chains', times' := chains[parent := daughters[time := child]], times[parent := known + {time}];
    assert forall p :: p in times'.Keys <==> p in chains'.Keys;
    assert forall t :: t in daughters[time := child].Keys <==> t in known + {time};
  }

  class RecipeRegistry {
    /** Recipe name to composition. */
    var recipes: map<string, Composition>
    /** Parent composition to (decay time to daughter). */
    var decayChains: map<Composition, map<int, Composition>>
    /** Parent composition to the decay times it has gone through. */
    var decayTimes: map<Composition, set<int>>
    /** The next state id to hand out. */
    var nextStateID: int
    /** State ids already written to the isotopics table. */
    var recorded: set<int>
    /** Every composition logged through this registry. */
    ghost var Repr: set<Composition>
    /** The reverse index: state id to the logged composition that holds it. */
    ghost var states: map<int, Composition>
    /** What every logged composition held when it was logged, and so still holds. */
    ghost var frozen: map<Composition, Snapshot>
    /** The decay law every cached daughter follows. */
    const decayLaw: DecayLaw

    /**
     * The registry's invariant: everything it refers to was logged through
     * it, the two decay indexes agree, state ids are below the counter and
     * no two logged compositions share one.
     */
    ghost predicate Valid()
      reads this, Repr`id, Repr`fractions, Repr`massNorm, Repr`parent, Repr`decayTime
    {
      && nextStateID >= 1
      && Indexed(recipes, decayChains, decayTimes, Repr)
      && Tracked()
      && Decayed(decayLaw, decayChains, frozen)
    }

    /**
     * Every logged composition is found under its own state id in the
     * reverse index, so no two share one, and still holds its snapshot;
     * state ids, and the recorded ids, lie strictly between 0 and the
     * counter.
     */
    ghost predicate Tracked()
      reads this, Repr`id, Repr`fractions, Repr`massNorm, Repr`parent, Repr`decayTime
    {
      && (forall c | c in Repr ::
            && c.id in states && states[c.id] == c
            && c in frozen && frozen[c] == Snapshot(c.fractions, c.massNorm, c.parent, c.decayTime))
      && (forall c | c in frozen :: c in Repr)
      && (forall i | i in states :: 0 < i < nextStateID)
      && (forall i | i in recorded :: 0 < i < nextStateID)
    }

    /**
     * A cached daughter names its parent and its decay time as its
     * provenance, and holds what the decay law makes of its parent over
     * that time.
     */
    lemma CachedDecay(parent: Composition, time: int)
      requires Valid() && parent in decayChains && time in decayChains[parent]
      ensures DecayOf(decayLaw, decayChains[parent][time], parent, time)
      ensures decayChains[parent][time].parent == parent && decayChains[parent][time].decayTime == time
    {
      var child := decayChains[parent][time];
      assert frozen[child] == Snapshot(child.fractions, child.massNorm, child.parent, child.decayTime);
      assert frozen[parent] == Snapshot(parent.fractions, parent.massNorm, parent.parent, parent.decayTime);
    }

    /** State ids are never shared: two logged compositions have different ids. */
    lemma IdsUnique(c: Composition, d: Composition)
      requires Valid() && c in Repr && d in Repr && c != d
      ensures c.id != d.id
    {
    }

    /** An empty registry whose first state id is 1 and whose decay law is `law`. */
    constructor (law: DecayLaw)
      ensures Valid() && fresh(this)
      ensures recipes == map[] && decayChains == map[] && decayTimes == map[]
      ensures nextStateID == 1 && recorded == {} && Repr == {}
      ensures decayLaw == law
    {
      decayLaw := law;
      recipes := map[];
      decayChains := map[];
      decayTimes := map[];
      nextStateID := 1;
      recorded := {};
      Repr := {};
      states := map[];
      frozen := map[];
    }

    /** `recipeLogged`: a recipe of this name is logged. */
    predicate RecipeLogged(name: string)
      reads this
      ensures RecipeLogged(name) <==> RecipeIn(recipes, name).Success?
    {
      name in recipes
    }

    /** `recipeCount`: the number of named recipes. */
    function RecipeCount(): (r: nat)
      reads this
      ensures r == |recipes.Keys|
      ensures r == 0 <==> recipes == map[]
    {
      |recipes|
    }

    /** `recipe`: the composition logged under `name`. */
    function Recipe(name: string): (r: Result<Composition, CycError>)
      reads this
      ensures r.Success? <==> RecipeLogged(name)
      ensures r.Failure? ==> r.error == UnknownRecipe(name)
    {
      RecipeIn(recipes, name)
    }

    /** `decayTimes`: the decay times `parent` has gone through. */
    function DecayTimes(parent: Composition): (r: set<int>)
      reads this
      ensures parent !in decayTimes ==> r == {}
      ensures parent in decayTimes ==> r == decayTimes[parent]
    {
      TimesIn(decayTimes, parent)
    }

    /** `Daughters`: the cached daughters of `parent`, by decay time. */
    function Daughters(parent: Composition): (r: map<int, Composition>)
      reads this
      ensures parent !in decayChains ==> r == map[]
      ensures parent in decayChains ==> r == decayChains[parent]
    {
      DaughtersIn(decayChains, parent)
    }

    /** `Daughter`: the cached daughter of `parent` after `time` months, if any. */
    function Daughter(parent: Composition, time: int): (r: Option<Composition>)
      reads this
      ensures r.Some? ==> time in DaughtersIn(decayChains, parent) && r.value == DaughtersIn(decayChains, parent)[time]
      ensures r.None? ==> time !in DaughtersIn(decayChains, parent)
    {
      if parent in decayChains && time in decayChains[parent] then Some(decayChains[parent][time]) else None
    }

    /** In a valid registry a daughter is cached exactly for the decay times recorded for its parent. */
    lemma DaughterIffDecayTime(parent: Composition, time: int)
      requires Valid()
      ensures Daughter(parent, time).Some? <==> time in DecayTimes(parent)
    {
    }

    /**
     * `logRecipe(composition*)`: unless `c` is already logged, gives it the
     * next state id and writes its state to the output table.
     */
    method LogRecipe(c: Composition)
      requires Valid()
      requires c.Logged() ==> c in Repr
      modifies this, c`id
      ensures Valid()
      ensures c.Logged() && c in Repr
      ensures Repr == old(Repr) + {c}
      ensures old(c.Logged()) ==> c.id == old(c.id) && nextStateID == old(nextStateID)
      ensures !old(c.Logged()) ==> c.id == old(nextStateID) && nextStateID == old(nextStateID) + 1
      ensures recipes == old(recipes) && decayChains == old(decayChains) && decayTimes == old(decayTimes)
      ensures old(c.Logged()) ==> recorded == old(recorded)
      ensures !old(c.Logged()) ==> recorded == old(recorded) + {c.id}
    {
      if !c.Logged() {
        AssignStateId(c);
        AddToTable(c);
      }
    }

    /** Gives an unlogged `c` the next state id and takes it into the registry. */
    method AssignStateId(c: Composition)
      requires Valid() && !c.Logged()
      modifies this, c`id
      ensures Valid()
      ensures c.Logged() && c.id == old(nextStateID) && nextStateID == old(nextStateID) + 1
      ensures Repr == old(Repr) + {c}
      ensures recipes == old(recipes) && decayChains == old(decayChains) && decayTimes == old(decayTimes)
      ensures recorded == old(recorded)
    {
      IndexedGrow(recipes, decayChains, decayTimes, Repr, {c});
      DecayedFreeze(decayLaw, decayChains, frozen, c, Snapshot(c.fractions, c.massNorm, c.parent, c.decayTime));
      c.id := nextStateID;
      frozen := frozen[c := Snapshot(c.fractions, c.massNorm, c.parent, c.decayTime)];
      states := states[nextStateID := c];
      nextStateID := nextStateID + 1;
      Repr := Repr + {c};
    }

    /**
     * `logRecipe(name, composition*)`: refuses a name already in use and a
     * composition that fails validation; otherwise logs the composition,
     * files it under `name` and makes it decayable.  A refusal changes
     * nothing.
     */
    method LogNamedRecipe(name: string, c: Composition) returns (r: Outcome<CycError>)
      requires Valid()
      requires c.Logged() ==> c in Repr
      modifies this, c`id
      ensures Valid()
      ensures old(RecipeLogged(name)) ==> r == Fail(DuplicateRecipe(name))
      ensures !old(RecipeLogged(name)) && Violations(c.fractions) != {} ==>
        r == Fail(InvalidComposition(Violations(c.fractions)))
      ensures r.Fail? ==> unchanged(this) && c.id == old(c.id)
      ensures r.Pass? <==> !old(RecipeLogged(name)) && Violations(c.fractions) == {}
      ensures r.Pass? ==> && recipes == old(recipes)[name := c]
                          && RecipeCount() == old(RecipeCount()) + 1
                          && Recipe(name) == Success(c)
                          && c.Logged() && c in decayChains
                          && forall other | other != name :: Recipe(other) == RecipeIn(old(recipes), other)
      ensures r.Pass? ==> decayChains == if c in old(decayChains) then old(decayChains) else old(decayChains)[c := map[]]
      ensures r.Pass? ==> decayTimes == if c in old(decayTimes) then old(decayTimes) else old(decayTimes)[c := {}]
      ensures r.Pass? ==> Repr == old(Repr) + {c}
      ensures r.Pass? && old(c.Logged()) ==> c.id == old(c.id) && nextStateID == old(nextStateID) && recorded == old(recorded)
      ensures r.Pass? && !old(c.Logged()) ==>
        c.id == old(nextStateID) && nextStateID == old(nextStateID) + 1 && recorded == old(recorded) + {c.id}
    {
      if name in recipes {
        return Fail(DuplicateRecipe(name));
      }
      var bad := ValidateComposition(c.fractions);
      if bad != {} {
        return Fail(InvalidComposition(bad));
      }
      LogRecipe(c);
      IndexedName(recipes, decayChains, decayTimes, Repr, name, c);
      recipes := recipes[name := c];
      StoreDecayableRecipe(c);
      r := Pass;
      assert forall other | other != name :: Recipe(other) == RecipeIn(old(recipes), other);
    }

    /**
     * `storeDecayableRecipe`: gives `c` an empty entry in both decay
     * indexes unless it already has one; an existing entry is kept.
     */
    method StoreDecayableRecipe(c: Composition)
      requires Valid() && c in Repr
      modifies this
      ensures Valid()
      ensures c in decayChains
      ensures decayChains == if c in old(decayChains) then old(decayChains) else old(decayChains)[c := map[]]
      ensures decayTimes == if c in old(decayTimes) then old(decayTimes) else old(decayTimes)[c := {}]
      ensures recipes == old(recipes) && nextStateID == old(nextStateID) && recorded == old(recorded)
      ensures Repr == old(Repr)
    {
      if c !in decayChains {
        IndexedStore(recipes, decayChains, decayTimes, Repr, c);
        DecayedStore(decayLaw, decayChains, frozen, c);
        decayChains := decayChains[c := map[]];
        decayTimes := decayTimes[c := {}];
      }
    }

    /**
     * `addDaughter`: caches `child` as the daughter of `parent` after `time`
     * months and records the decay time.
     */
    method AddDaughter(parent: Composition, child: Composition, time: int)
      requires Valid() && parent in Repr && child in Repr
      requires DecayOf(decayLaw, child, parent, time)
      requires child.parent == parent && child.decayTime == time
      modifies this
      ensures Valid()
      ensures Daughter(parent, time) == Some(child) && time in DecayTimes(parent)
      ensures decayChains == old(decayChains)[parent := old(Daughters(parent))[time := child]]
      ensures decayTimes == old(decayTimes)[parent := old(DecayTimes(parent)) + {time}]
      ensures recipes == old(recipes) && nextStateID == old(nextStateID) && recorded == old(recorded)
      ensures Repr == old(Repr)
    {
      var chains := decayChains[parent := Daughters(parent)[time := child]];
      var times := decayTimes[parent := DecayTimes(parent) + {time}];
      IndexedDaughter(recipes, decayChains, decayTimes, Repr, parent, child, time);
      DecayedDaughter(decayLaw, decayChains, frozen, parent, child, time);
      decayChains, decayTimes := chains, times;
    }

    /**
     * `logRecipeDecay`: records that `child` is `parent` decayed from month
     * `ti` to month `tf`, logs the child and caches it as a daughter.
     */
    method LogRecipeDecay(parent: Composition, child: Composition, ti: int, tf: int)
      requires Valid() && parent in Repr
      requires !child.Logged()
      requires DecayOf(decayLaw, child, parent, tf - ti)
      modifies this, child`parent, child`decayTime, child`id
      ensures Valid()
      ensures child.parent == parent && child.decayTime == tf - ti
      ensures child.Logged() && child.id == old(nextStateID) && Repr == old(Repr) + {child}
      ensures nextStateID == old(nextStateID) + 1
      ensures Daughter(parent, tf - ti) == Some(child)
      ensures tf - ti in DecayTimes(parent)
      ensures decayChains == old(decayChains)[parent := old(Daughters(parent))[tf - ti := child]]
      ensures decayTimes == old(decayTimes)[parent := old(DecayTimes(parent)) + {tf - ti}]
      ensures recipes == old(recipes) && recorded == old(recorded) + {child.id}
    {
      child.parent := parent;
      child.decayTime := tf - ti;
      LogRecipe(child);
      AddDaughter(parent, child, tf - ti);
    }

    /**
     * `recordState` on a composition: an unlogged one is logged, which
     * writes its new state; a logged one is written unless its state id is
     * already there.  Reports whether a new state was written.
     */
    method RecordState(c: Composition) returns (isNew: bool)
      requires Valid()
      requires c.Logged() ==> c in Repr
      modifies this, c`id
      ensures Valid()
      ensures c.Logged() && c in Repr
      ensures isNew <==> !old(c.Logged()) || old(c.id) !in old(recorded)
      ensures recorded == old(recorded) + {c.id}
      ensures Repr == old(Repr) + {c}
      ensures old(c.Logged()) ==> c.id == old(c.id) && nextStateID == old(nextStateID)
      ensures !old(c.Logged()) ==> c.id == old(nextStateID) && nextStateID == old(nextStateID) + 1
      ensures recipes == old(recipes) && decayChains == old(decayChains) && decayTimes == old(decayTimes)
    {
      if !c.Logged() {
        LogRecipe(c);
        return true;
      }
      isNew := c.id !in recorded;
      if isNew {
        AddToTable(c);
      }
    }

    /** `addToTable`: writes the state of a logged composition to the table. */
    method AddToTable(c: Composition)
      requires Valid() && c in Repr
      modifies this`recorded
      ensures Valid()
      ensures recorded == old(recorded) + {c.id}
      ensures c.id in recorded
    {
      recorded := recorded + {c.id};
    }
  }
}
