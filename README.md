# IsoVector: isotopic compositions, recipes and decay chains

This project models the isotopic-composition container of the Cyclus fuel-cycle
simulator (`src/Resources/IsoVector.h`) in Dafny and proves properties of the model.

An IsoVector is a handle on a `composition`. A composition holds:

- a map from isotope identifier (the integer ZZZAAA) to mass fraction;
- a mass normaliser and an atom normaliser;
- a state id, which is 0 until the composition is logged;
- the parent it decayed from, and the decay time.

Recipes are named, logged compositions. They live in process-wide containers:

- the recipe map;
- the decay-chain map (parent → decay time → daughter);
- the decay-time map (parent → set of decay times);
- the state-id counter.

Every IsoVector built from a recipe points at the same logged composition. A logged
composition is never changed. Operations that would change it work on a copy.

Modules, one per part of the core:

- `Nuclides` (nuclides.dfy): the ZZZAAA split with C++ truncating division, the two
  validators, and `validateComposition`, which collects every failure.
- `CompMaps` (compmaps.dfy): the pure arithmetic of `operator+`, `-`, `==`, `*` and `/`
  on maps of absolute quantities. Also the total of a map, mass and atom fractions,
  `massify`/`atomify`, and the lemmas that relate them (inverse, conservation of
  mass, fractions summing to one, basis round trip).
- `Compositions` (composition.dfy): the `composition` struct as a class, plus
  `getNormalizers` and `setComposition(CompMap*)`.
- `Registry` (registry.dfy): the static containers and the state-id counter as the
  fields of one `RecipeRegistry` object, together with the decay law the registry was
  created with. Its invariant `Valid()` says:
  - every logged composition has a distinct id below the counter, and still holds
    what it held when it was logged;
  - the decay-chain map and the decay-time map agree;
  - every cached daughter names its parent and its slot's time as its parent and
    decay time, and holds what the decay law makes of its parent over that time.
- `IsoVectors` (isovector.dfy): the IsoVector class. Its operators build new vectors on
  new, unlogged compositions. `multMassNormBy` and `minimizeComposition` copy a
  logged composition before changing it. `executeDecay` consults and fills the
  decay-chain cache. `recordState` writes a state once per state id.
- `Wrappers`, `CycErrors`, `Collections`: result types, the error kinds, and
  extensionality helpers.

The header declares the operations and documents their contracts. Its only code is
the `composition` struct (lines 50-71). The rest of the behaviour follows the doc
comments. The behaviour the header leaves open is chosen as follows:

- the first state id is 1, and logging never re-numbers a logged composition;
- a named recipe is refused when the name is taken or the composition fails
  validation, and a refusal changes nothing;
- `recordState` reports whether it wrote a new state. It is declared `void`
  but documented to return this.

Quantities and fractions are exact reals. Time is a whole number of months.

## Model

| member | source | states |
|---|---|---|
| `Nuclides.AtomicNum` | src/Resources/IsoVector.h:349-355 | the atomic number is the count of whole thousands in the identifier, rounded toward zero as C++ division does |
| `Nuclides.MassNum` | src/Resources/IsoVector.h:357-363 | the mass number is what the thousands leave, in [0, 1000) for a non-negative identifier and with the identifier's sign otherwise |
| `Nuclides.ValidateIsotopeNumber` | src/Resources/IsoVector.h:500-505 | passes iff the identifier is a valid isotope, which puts it between 1001 and 118999; otherwise fails naming the identifier |
| `Nuclides.ValidateFraction` | src/Resources/IsoVector.h:495-498 | fails iff the fraction is negative, naming the isotope and the fraction |
| `Nuclides.SplitRecombines` | src/Resources/IsoVector.h:349-363 | the atomic number times 1000 plus the mass number gives the identifier back, with the C++ signs for negative identifiers |
| `Nuclides.SplitOfIsoOf` | src/Resources/IsoVector.h:349-363 | `getAtomicNum`/`getMassNum` of ZZZ*1000+AAA return ZZZ and AAA |
| `Nuclides.ValidIsotopeIff` | src/Resources/IsoVector.h:500-505 | an identifier passes `validateIsotopeNumber` exactly when it is ZZZAAA with 1 <= ZZZ <= 118 and AAA >= ZZZ |
| `Nuclides.ViolationsInsert` | src/Resources/IsoVector.h:488-493 | adding an entry to a composition adds exactly that entry's validation failures |
| `Nuclides.ValidateComposition` | src/Resources/IsoVector.h:488-505 | the loop returns every failure of both validators over all pairs; empty iff every isotope is valid and every fraction non-negative; a negative fraction is always reported |
| `Nuclides.ValidationReportsAll` | src/Resources/IsoVector.h:488-498 | an invalid isotope with a negative fraction yields both failures, not only the first |
| `CompMaps.SumOverPermutation` | src/Resources/IsoVector.h:421-424 | the sum of a map's quantities does not depend on the order its isotopes are visited in |
| `CompMaps.TotalBounds` | src/Resources/IsoVector.h:421-424 | with no negative quantity the total is non-negative and bounds every quantity |
| `CompMaps.SumOf` | src/Resources/IsoVector.h:421-424 | the loop's sum is the total of the map |
| `CompMaps.Add` | src/Resources/IsoVector.h:161-164 | the sum has the isotopes of both sides, each with the sum of its quantities |
| `CompMaps.Subtract` | src/Resources/IsoVector.h:166-172 | fails with a negative-quantity error iff some isotope of the rhs exceeds the lhs; otherwise each quantity is lhs minus rhs and none is negative |
| `CompMaps.Equal` | src/Resources/IsoVector.h:174-178 | true iff every isotope has the same quantity on both sides, absent counting as zero |
| `CompMaps.Scale` | src/Resources/IsoVector.h:180-192 | every quantity is multiplied by the factor and no isotope is added or dropped |
| `CompMaps.AddSubtractInverse` | src/Resources/IsoVector.h:161-172 | subtracting b from a + b succeeds and equals a |
| `CompMaps.AddConservesMass` | src/Resources/IsoVector.h:161-164 | the total of a sum is the sum of the totals |
| `CompMaps.SubtractConservesMass` | src/Resources/IsoVector.h:166-172 | a successful difference has the difference of the totals |
| `CompMaps.SubtractRefusesNegative` | src/Resources/IsoVector.h:166-172 | 1 kg minus 2 kg of U-235 is refused |
| `CompMaps.ScaleTotal` | src/Resources/IsoVector.h:180-186 | scaling multiplies the total by the factor |
| `CompMaps.ScaleScale` | src/Resources/IsoVector.h:180-186 | scaling twice is scaling once by the product |
| `CompMaps.ScaleInverse` | src/Resources/IsoVector.h:188-192 | dividing by a non-zero factor and multiplying by it again gives the quantities back |
| `CompMaps.NormalizeRoundTrip` | src/Resources/IsoVector.h:407-424 | normalising by the total gives fractions that sum to one, and the normaliser times the fractions gives the quantities back |
| `CompMaps.MassFractionsSumToOne` | src/Resources/IsoVector.h:231-239 | the mass fractions of the isotopes present sum to one |
| `CompMaps.MassFractionBounds` | src/Resources/IsoVector.h:231-239 | every mass fraction lies in [0, 1] |
| `CompMaps.MassFractionScaleInvariant` | src/Resources/IsoVector.h:226-236 | multiplying the mass normaliser by a non-zero factor changes no mass fraction |
| `CompMaps.NegligibleParts` | src/Resources/IsoVector.h:251-258 | an absent isotope is zero, and one that is zero in a sum is zero in each part |
| `CompMaps.NegligibleSubtract` | src/Resources/IsoVector.h:251-258 | taking non-negative quantities away from a zero isotope leaves it zero, and what was taken of it was zero |
| `CompMaps.NegligibleScale` | src/Resources/IsoVector.h:251-258 | scaling by a factor in [0, 1] keeps a zero isotope zero |
| `CompMaps.Atomify` | src/Resources/IsoVector.h:396-400 | atomify keeps exactly the isotopes of its input |
| `CompMaps.Massify` | src/Resources/IsoVector.h:390-394 | massify keeps exactly the isotopes of its input |
| `CompMaps.BasisRoundTrip` | src/Resources/IsoVector.h:390-400 | massify after atomify, and atomify after massify, give the quantities back |
| `CompMaps.AtomFractionsSumToOne` | src/Resources/IsoVector.h:241-249 | the atom fractions of the isotopes present sum to one |
| `Compositions.Composition.Logged` | src/Resources/IsoVector.h:65-67 | a logged composition has a state id of at least 1; one with id 0 is not logged |
| `Compositions.Composition.constructor` | src/Resources/IsoVector.h:57-67 | a new composition holds the given fractions and normalisers, has id 0, no parent and decay time 0, and is not logged |
| `Compositions.GetNormalizers` | src/Resources/IsoVector.h:421-424 | the normalisers are the total mass and the total of the atom-based quantities |
| `Compositions.NormalizedComposition` | src/Resources/IsoVector.h:407-411 | the new unlogged composition holds the given quantities; with a non-zero total its normaliser is the total and its fractions sum to one |
| `Compositions.Copy` | src/Resources/IsoVector.h:106-113 | a copy has the same fractions, normalisers, parent and decay time, and is not logged |
| `IsoVectors.IsoVector.constructor` | src/Resources/IsoVector.h:127-130 | a new vector is empty and on a fresh, unlogged composition |
| `IsoVectors.IsoVector.FromComposition` | src/Resources/IsoVector.h:132-137 | the vector shares the given composition |
| `IsoVectors.IsoVector.FromQuantities` | src/Resources/IsoVector.h:139-152 | the vector holds the quantities, massified first when they are atom-based, so that atomifying gives them back |
| `IsoVectors.IsoVector.Plus` | src/Resources/IsoVector.h:161-164 | a new unlogged vector holding the sum of the quantities |
| `IsoVectors.IsoVector.Minus` | src/Resources/IsoVector.h:166-172 | refused iff some isotope would become negative; otherwise a new unlogged vector holding the difference |
| `IsoVectors.IsoVector.Equals` | src/Resources/IsoVector.h:174-178 | true iff every isotope has the same quantity in both vectors |
| `IsoVectors.IsoVector.Times` | src/Resources/IsoVector.h:180-186 | a new unlogged vector with the same fractions, parent and decay time, and the mass normaliser times the factor |
| `IsoVectors.IsoVector.DividedBy` | src/Resources/IsoVector.h:188-192 | a new unlogged vector on a copy with the same fractions, parent and decay time, the mass normaliser divided by the factor, and so every quantity divided by the factor |
| `IsoVectors.IsoVector.MultMassNormBy` | src/Resources/IsoVector.h:226-229 | the mass normaliser is multiplied by the factor and so is every quantity; fractions, atom normaliser, parent and decay time stay, and so does the id of an unlogged composition; a logged composition is copied and never written |
| `IsoVectors.IsoVector.MinimizeComposition` | src/Resources/IsoVector.h:221-224 | the mass normaliser becomes 1 and every absolute quantity is kept; atom normaliser, parent and decay time stay, and so does the id of an unlogged composition; a logged composition is copied and never written |
| `IsoVectors.IsoVector.MassFraction` | src/Resources/IsoVector.h:231-234 | the result is the isotope's share of the total mass |
| `IsoVectors.IsoVector.AtomFraction` | src/Resources/IsoVector.h:241-244 | the result is the isotope's share of the atoms |
| `IsoVectors.IsoVector.IsZero` | src/Resources/IsoVector.h:251-258 | true iff the isotope's quantity is below the mass tolerance |
| `IsoVectors.ZeroAfterMinus` | src/Resources/IsoVector.h:251-258 | an isotope zero in a vector is zero after a non-negative vector is subtracted, and was zero in what was subtracted |
| `IsoVectors.IsoVector.ExecuteDecay` | src/Resources/IsoVector.h:260-266 | no time changes nothing; otherwise the vector holds what the registry's decay law makes of its quantities, on a composition whose parent is the old one and whose decay time is `dt`, whether the daughter comes from the cache or is new; a logged composition takes the cached daughter, or computes, logs and caches one, with the counter one higher, the daughter's state recorded, one more daughter for that parent and nothing else changed; an unlogged one gets a fresh, uncached daughter whose parent is the old composition |
| `IsoVectors.DecayLogged` | src/Resources/IsoVector.h:260-266 | a logged composition's daughter is the cached one, or a new one logged, recorded and cached with only that parent's daughters, its decay times, the counter and the recorded ids changed; either way it holds the decayed quantities and names the old composition and `dt` as its provenance |
| `IsoVectors.DecayUnlogged` | src/Resources/IsoVector.h:260-266 | an unlogged composition's daughter is fresh and unlogged, holds the decayed quantities, names the old composition and `dt` as its provenance, and the registry stays valid |
| `IsoVectors.DecayComposition` | src/Resources/IsoVector.h:456-462 | the new unlogged composition holds what the decay law makes of the quantities and names the old one as its parent |
| `IsoVectors.DecayReusesCache` | src/Resources/IsoVector.h:106-113 | two vectors on one logged recipe decayed by the same time end on the same daughter, which the cache holds and which holds the decayed quantities |
| `IsoVectors.IsoVector.RecordState` | src/Resources/IsoVector.h:534-537 | the composition ends logged; a logged one keeps its id and the counter, an unlogged one takes the counter's id and the counter grows by one; the result is true iff its state id was not recorded before; the registry's containers do not change |
| `IsoVectors.RecordTwice` | src/Resources/IsoVector.h:534-537 | recording a new state twice reports true, then false |
| `Registry.RecipeRegistry.constructor` | src/Resources/IsoVector.h:474-484 | the containers start empty, the first state id is 1 and the decay law is the one given |
| `Registry.RecipeRegistry.IdsUnique` | src/Resources/IsoVector.h:440-443 | no two logged compositions share a state id |
| `Registry.RecipeRegistry.RecipeLogged` | src/Resources/IsoVector.h:307-310 | true iff looking the name up finds a recipe |
| `Registry.RecipeRegistry.RecipeCount` | src/Resources/IsoVector.h:312-315 | the number of names with a recipe; zero iff there is none |
| `Registry.RecipeRegistry.DecayTimes` | src/Resources/IsoVector.h:322-325 | the decay times recorded for the parent; none for a parent never stored |
| `Registry.RecipeRegistry.Daughters` | src/Resources/IsoVector.h:327-330 | the daughters cached for the parent, by time; none for a parent never stored |
| `Registry.RecipeRegistry.CachedDecay` | src/Resources/IsoVector.h:327-335 | in a valid registry every cached daughter has its parent and its slot's time as parent and decay time, and holds what the decay law makes of its parent over that time |
| `Registry.DecayedDaughter` | src/Resources/IsoVector.h:337-340 | caching a daughter whose provenance is its slot and which holds its parent's decayed quantities keeps every cached daughter so |
| `Registry.RecipeRegistry.Recipe` | src/Resources/IsoVector.h:317-320 | a name resolves iff a recipe is logged under it; otherwise an unknown-recipe error |
| `Registry.RecipeRegistry.Daughter` | src/Resources/IsoVector.h:332-335 | a found daughter is the one cached for that parent and time |
| `Registry.RecipeRegistry.DaughterIffDecayTime` | src/Resources/IsoVector.h:322-335 | a daughter is cached exactly for the decay times recorded for its parent |
| `Registry.RecipeRegistry.LogRecipe` | src/Resources/IsoVector.h:280-284 | an unlogged composition gets the counter's id, the counter grows by one and the new state is written to the table (the BookKeeper write); a logged one keeps its id and nothing is written; the containers do not change |
| `Registry.RecipeRegistry.LogNamedRecipe` | src/Resources/IsoVector.h:286-291 | refuses a taken name or an invalid composition and then changes nothing; otherwise the name resolves to the logged composition, the count grows by one, other names are unchanged, the recipe is decayable with its existing daughters and decay times kept and every other parent's entries unchanged, and the id, counter and written states follow `logRecipe` |
| `Registry.RecipeRegistry.StoreDecayableRecipe` | src/Resources/IsoVector.h:302-305 | the recipe gets empty decay entries unless it has them already |
| `Registry.RecipeRegistry.AddDaughter` | src/Resources/IsoVector.h:337-340 | afterwards the daughter for that parent and time is the child, and the time is among the parent's decay times |
| `Registry.RecipeRegistry.LogRecipeDecay` | src/Resources/IsoVector.h:293-301 | the child's parent and decay time are set, the child is logged with the next id, the counter grows by one, and the child is cached as the daughter with its time added to the parent's decay times; logging writes the child's state; nothing else changes |
| `Registry.RecipeRegistry.RecordState` | src/Resources/IsoVector.h:534-537 | an unlogged composition is logged, which writes its state, and the result is true; a logged one keeps its id and the counter and is written unless its id is already recorded, the result saying whether it was; the id is recorded afterwards; the containers do not change |
| `Registry.RecipeRegistry.AddToTable` | src/Resources/IsoVector.h:545-548 | the composition's state id is recorded |

## Left out

- `load_recipes` and `load_recipe` read recipes from XML input. The model starts from compositions that are already built.
- `print`, `printRecipes`, `compStrings` and `detail` format output.
- `iso_table` and `define_table` are the database table. `addToTable` is modelled only as adding the state id to a set of recorded ids. The BookKeeper write of `logRecipe` is taken to be this same write of the state to the output database.
- `init`, `init_comp_`, the destructor, `delete_map` and `delete_comp` manage memory. Compositions are garbage-collected objects here.
- The accessors `stateID`, `mass_comp`, `mass_normalizer`, `decay_time` and `parent` are the fields of the composition the vector holds. The IsoVector's `logged()` is `Composition.Logged` on that composition.
- The static `massFraction(tope, c)` and `atomFraction(tope, c)` are `CompMaps.MassFraction` and `CompMaps.AtomFraction` applied to the composition's quantities.
- The `int` overloads of `operator*` and `operator/` behave as the `double` ones and are not modelled apart.
- Floating point: quantities are exact reals. `operator==` compares exactly, without the `EPS_PERCENT` tolerance.
- The decay physics lives in an unseen matrix library. The decay law is a function of the absolute quantities and the months, fixed when the registry is created. So the claim that decaying twice equals decaying once by the summed time is not modelled.
- Atomic masses come from unseen nuclide data. They are a function parameter that must be positive. `AVOGADRO` only scales atom counts and is not needed.
- IsoVectors.IsoVector.ExecuteDecay: takes whole months, where the source passes a `double`; daughters are cached by whole months in the source as well.
- Registry.RecipeRegistry.LogRecipeDecay: requires an unlogged child. It writes the child's parent and decay time, and a logged composition is never written. It also requires the child to hold what the decay law makes of the parent over `tf - ti` months; the model's only caller, `DecayLogged`, builds the child that way, and the cache relies on it. An outside caller passing a child that does not hold the decayed quantities, which the header's public `logRecipeDecay` would accept, is excluded.
- Registry.RecipeRegistry.AddDaughter: requires the child to hold the parent's decayed quantities and to name the parent and the time as its parent and decay time, for the same reason; `logRecipeDecay` sets both fields before it caches the child.
- Nuclides.ValidateComposition: the header documents `validateFraction` and `validateIsotopeNumber` as throwing (lines 495-505), so `validateComposition` stops at the first bad entry. The model collects every failure instead; a refusal happens exactly when the first failure would have been thrown.
- IsoVectors.IsoVector.DividedBy: requires a non-zero factor, because division by zero gives IEEE infinities that reals cannot represent.
- A mass-based vector is the only kind the operators see, so no basis-mismatch error arises.
- Concurrency: the containers are process-wide statics used from one thread. Here they are one explicit registry object passed to the operations that need it.
