# PhylodynamicSimulation in Dafny

PhylodynamicSimulation is an individual-based epidemic simulator. Each
deme (a `HostSpeciesPopulation`) holds several host species. Each species
keeps its hosts in three unordered lists: susceptible (S), infected (I)
and recovered (R). Every step the simulator does the following:

- demography runs: birth and death, or a swap back to susceptible;
- infected hosts contact susceptible ones, in their own deme and in others;
- hosts recover, lose immunity, are vaccinated or culled;
- viruses mutate;
- once a day an environmental reservoir sheds and clears free virus;
- diversity statistics are sampled from pairs of circulating viruses.

Every infection is a node in a virus genealogy: a parent, a birth time, a
two-dimensional antigenic phenotype and a shedding count. The genealogy
supports common-ancestor walks, branch-length distances, a windowed
coalescence test and trunk marking. Three analysis scripts sit alongside
the simulator:

- a streaming per-day mean/variance/min/max aggregator (`get_col_summary.cpp`);
- a depth-first leaf clusterer for phylogenetic trees (`Cluster.py`);
- a tree-shape comparison over node-size and node-depth percentages
  (`ComparePhyTrees.py`).

A host that already carries a virus's exact phenotype is usually described
as infected with risk 1 − homologousImmunity. The code
(GeometricPhenotype.java:55-80) gives that only under two conditions:

- homologousImmunity ≤ minCrossImmunity, as with the defaults 0.05 and 0.7.
  Otherwise the risk at distance 0 is 1 − minCrossImmunity.
- No other history entry closer than 0.01 comes earlier. The history scan
  stops at the first close entry, so the closest distance can then be
  positive, though below 0.01.

The model follows the code. `GeometricPhenotype.ExactPhenotypeRisk` and
`GeometricPhenotype.ContainedPhenotypeClose` state both conditions.

## Modules

| file | module | models |
|---|---|---|
| wrappers.dfy | `Wrappers` | `Option` for Java `null`; Java's `(int)` cast and `ArrayList` swap-with-last removal |
| numerics.dfy | `Numerics` | `java.lang.Math` (sqrt, exp, sin, cos, pi), passed in as a record of functions with the few facts the proofs use |
| parameters.dfy | `ParametersModel` | `Parameters.getDate`, the seasonal multiplier and `skewSpecies` |
| phenotype.dfy | `GeometricPhenotype` | phenotype distance, cross-immunity risk and mutation |
| lineage.dfy | `Lineage` | `Virus`: an append-only arena of nodes (class `Arena`) with `parent: Option<nat>`, plus the walks over it |
| environment.dfy | `EnvironmentModel` | `Environment`: the reservoir list and its clearing sweep (class `Environment`) |
| host.dfy | `HostModel` | `Host`: infection and immune history (class `Host`), with the checkpoint text format |
| species.dfy | `SpeciesModel` | `Species`: the three compartments as `seq<Host>` fields (class `Species`) |
| trace.dfy | `MutationTrace` | which virus each infected host carries along a run of `HostSpeciesPopulation.mutate`, and whose child each new virus is |
| population.dfy | `PopulationModel` | `HostSpeciesPopulation`: one deme and its daily step (class `Population`) |
| diversity.dfy | `Diversity` | the diversity sums and statistics shared by deme and world |
| simulation.dfy | `SimulationModel` | `SimulationSpecies`: the world of demes (class `Simulation`) |
| daystats.dfy | `DayStatistics` | `get_col_summary.cpp`: `DayStats` values and the per-day `std::set` (class `StatSet`) |
| tree.dfy | `PhyloTrees` | the ete2 trees the scripts read, as a value type |
| cluster.dfy | `Clustering` | `Cluster.py` (class `Clusterer` for the recursive visitor's mutable state) |
| comparetrees.dfy | `TreeComparison` | `ComparePhyTrees.py` |

Randomness is not modelled. Each Poisson count, uniform index, Bernoulli
trial, gamma sample or angle comes in as a parameter. Poisson counts come
from a `Sampler`, indexed by deme, by the purpose of the draw and by the
mean. Index and trial draws come from sequences whose only requirement is
that they are long enough. Java `double` is modelled as Dafny `real` and
Java `int` as unbounded `int`/`nat`.

Several defects in the source are modelled as written:

- `Species.makeSusceptible` never decrements its counter. On I or R a
  positive count drains the whole compartment into S. On S a positive
  count never terminates, so the model requires zero conversions for the S
  pass when swap demography is on.
- `SimulationSpecies.stepForward` passes deme `i` itself as the "other"
  deme of every between-deme contact.
- `betweenDemeContact` guards on its own infected count.
- `Environment.add` never stores the virus.
- `cull` does not decrement the shedding count.
- The common-ancestor walk can return the root even when a more recent
  shared ancestor exists. `Lineage.CommonAncestorExamples` shows such a case.

## Model

| member | source | states |
|---|---|---|
| Wrappers.TruncateToInt | HostSpeciesPopulation.java:399 | Java's `(int)` cast of a non-negative double gives the largest integer not above it; of a non-positive one the smallest integer not below it. |
| Wrappers.SwapRemove | Species.java:316-324 | The swap-with-last removal shortens the list by one, puts the old last element at the removed position and leaves every other position alone. |
| Wrappers.SwapRemoveMultiset | Species.java:316-324 | The swap-with-last removal takes away exactly one copy of the removed element. |
| Wrappers.SwapRemoveKeepsOthers | Species.java:316-324 | On a duplicate-free list the removal keeps it duplicate-free, drops exactly the removed host, keeps the prefix and moves only the last element forward. |
| ParametersModel.GetDate | Parameters.java:117-119 | The date times 365 is the day minus the burn-in. |
| ParametersModel.DateAdvances | Parameters.java:117-119 | 365 more days is one more year, and the date is 0 at the end of burn-in. |
| ParametersModel.Seasonality | Parameters.java:126-131 | Without amplitude the multiplier is the baseline; with a non-negative amplitude and a sound cosine it stays within the amplitude of the baseline. |
| ParametersModel.Fractions | Parameters.java:412-417 | One fraction per species, in list order. |
| ParametersModel.MaxIndex | Parameters.java:412-417 | The scan returns the first position holding the largest fraction. |
| ParametersModel.FirstMaxUnique | Parameters.java:412-417 | The first largest position is unique, so the scan's result is determined. |
| ParametersModel.ClampedSkew | Parameters.java:419-423 | The applied skew is never larger in size than the top fraction or the requested skew, keeps the requested sign, and is the requested skew when that already fits. |
| ParametersModel.Clamp01 | Parameters.java:429-433 | The clamp lands in [0, 1], leaves values already there unchanged, and sends values below 0 to 0 and above 1 to 1. |
| ParametersModel.Rewritten | Parameters.java:425-436 | Each rewritten fraction lies in [0, 1], one per species. |
| ParametersModel.Skew | Parameters.java:405-436 | The skewed fraction list has one entry per species. |
| ParametersModel.PositiveIndices | Parameters.java:438-447 | The entries left after pruning are exactly the species with a positive fraction, at strictly increasing original positions. |
| ParametersModel.PositiveArePositive | Parameters.java:438-447 | Every entry left after pruning has a positive fraction. |
| ParametersModel.SkewSpecies | Parameters.java:405-451 | Fewer than two species: nothing changes. Otherwise every species is replaced by a copy carrying its skewed fraction, the non-positive ones are then removed in order, and the total is the sum of the fractions kept. |
| ParametersModel.Rewrite | Parameters.java:425-436 | The rewriting loop replaces each entry by a fresh copy of it with the rewritten fraction. |
| ParametersModel.Prune | Parameters.java:437-447 | The removal loop leaves exactly the positive entries in order and totals their fractions. |
| ParametersModel.SkewAll | Parameters.java:464-468 | Every deme's list is skewed: lists of fewer than two species stay as they are; every other list becomes the positive entries, in order, of a copy of it carrying the Skew fractions (SkewedVia), so only positive fractions remain. |
| EnvironmentModel.NextVolume | Environment.java:110-116 | A virus nobody sheds only decays by exp(-30·clearRate); with a sound exponential a non-negative volume stays non-negative. |
| EnvironmentModel.SheddingVirusStays | Environment.java:120 | A virus some host still sheds is never evicted, whatever its volume. |
| EnvironmentModel.Environment.constructor | Environment.java:82-90 | The five parameters are stored and the reservoir starts empty. |
| EnvironmentModel.Environment.DailyRates | Environment.java:100-105 | The shedding rate of a step is sheddingRate times the step. |
| EnvironmentModel.Environment.ClearViruses | Environment.java:97-131 | Every reservoir virus gets its next volume and nothing else changes. A virus stays exactly when it is still shed or its volume reaches id50, with no duplicates. maxSize becomes the larger of its old value and the new list size. |
| EnvironmentModel.Environment.Add | Environment.java:141-143 | add only asserts that the virus has exactly one shedding host and changes nothing. |
| EnvironmentModel.Environment.GetVirus | Environment.java:151-157 | An index below the size gives that listed virus; the index one past the end gives no virus. |
| EnvironmentModel.Environment.SetParam | Environment.java:170-195 | Exactly the named one of the five parameters takes the value and the others keep theirs. The name is accepted exactly when it is one of the five. |
| EnvironmentModel.UpdateOneVolume | Environment.java:115-118 | Updating one more virus extends the set of viruses whose volume has been advanced. |
| EnvironmentModel.SweepRemove | Environment.java:120-125 | Removing an evicted virus by swap keeps the sweep invariant. |
| EnvironmentModel.SweepKeep | Environment.java:126-128 | Passing a kept virus keeps the sweep invariant. |
| EnvironmentModel.SweepDone | Environment.java:108-129 | At the end of the sweep every original virus has been seen, and the list holds exactly the ones not evicted, without duplicates. |
| HostModel.TotalSheddingAppend | Virus.java:240-242 | Adding a virus adds its shedding count to the total. |
| HostModel.TotalSheddingUpdate | Virus.java:240-251 | Replacing one virus changes the total by the difference of the two counts. |
| HostModel.SplitAll | Host.java:34-35 | Splitting at a separator gives at least one piece, and no piece holds the separator. |
| HostModel.SplitAllJoin | Host.java:34-35 | Splitting joined pieces that contain no separator gives the pieces back. |
| HostModel.SplitJoin | Host.java:33-44 | Reading a printed history splits it back into exactly the printed non-empty entries. |
| HostModel.MapAll | Host.java:36-43 | One result per entry, in order: one parsed phenotype per history text when reading a checkpoint, and one printed text per phenotype in printHistory. |
| HostModel.HistoryRoundTrip | Host.java:33-44 | Reading back a printed history gives exactly the printed entries, one per history element. |
| HostModel.Host.constructor | Host.java:13-15 | Host(): uninfected; the history holds the ur-immunity exactly when the initial-immunity draw succeeds. |
| HostModel.Host.Infected | Host.java:18-21 | Host(v): infected with the given virus; the history holds the ur-immunity exactly when the draw succeeds. |
| HostModel.Host.FromCheckpoint | Host.java:24-45 | "n" leaves the host uninfected and the arena unchanged; any other text adds exactly one new child of the ur-virus in deme d and infects the host with it. The history is the parsed ';'-separated entries. |
| HostModel.Host.InitializeHistory | Host.java:48-54 | The ur-immunity is appended exactly when the draw succeeds; the infection is unchanged. |
| HostModel.Host.AddToHistory | Host.java:56-63 | A fresh history array: the old entries followed by the new phenotype. |
| HostModel.Host.Reset | Host.java:66-69 | The host is uninfected with an empty history. |
| HostModel.Host.Infect | Host.java:86-94 | The infection becomes a new child of the given virus, in the given deme, with its phenotype and one shedding host. The history is untouched and the total shedding count goes up by one. |
| HostModel.Host.ClearInfection | Host.java:102-109 | The cleared phenotype is appended to the history, the virus loses one shedding host and the host is uninfected. |
| HostModel.Host.Mutate | Host.java:122-130 | The infection becomes a mutated child of the old virus, and the arena becomes WithMutant of the old one: the old virus loses this host as shedder, the child gains it, and nothing else changes. |
| HostModel.Host.PrintInfection | Host.java:143-150 | "n" exactly when uninfected; otherwise the infection's phenotype. |
| HostModel.Host.PrintHistory | Host.java:152-162 | The entries joined by ';' ("n" when empty); reading it back gives one entry per history element. |
| SpeciesModel.Declined | Species.java:332-343 | Removing at each drawn index while deaths remain and the list is non-empty removes min(deaths, size) hosts and only hosts of the list. |
| SpeciesModel.Drained | Species.java:366-384 | Draining a compartment by drawn indices visits every host exactly once: the order is a permutation of the list. |
| SpeciesModel.DrainedHoldsAll | Species.java:366-384 | A host is in the drained order exactly when it was in the compartment. |
| SpeciesModel.DrainReset | Species.java:370-375 | The drain loop resets every host of the compartment and returns them in drained order. |
| SpeciesModel.MarkTrunkLineage | Species.java:530-541 | Marking one infected host's lineage only sets trunk flags: the virus becomes trunk, closure under parents is kept, and every newly marked node is an ancestor-or-self of that virus. |
| SpeciesModel.TrunkClosedAncestors | Species.java:535-537 | In a parent-closed trunk every ancestor of a trunk node is trunk, which is why the walk may stop at the first trunk ancestor. |
| SpeciesModel.TrunkGrowsKeepsAncestry | Species.java:529-542 | Setting trunk flags changes no ancestry. |
| SpeciesModel.Species.constructor | Species.java:132-141 | The YAML fields are stored and broodBirthRate·(broodEnd − broodStart) = birthRate·365; with broodEnd = broodStart (never inside a brood period) the rate is 0. The compartments start empty. |
| SpeciesModel.Species.Copy | Species.java:152-161 | The copy takes every field of the source species except the fraction, which is the new one. |
| SpeciesModel.Species.GetN | Species.java:205-232 | getN is the number of hosts and the sum of getS, getI and getR. |
| SpeciesModel.Species.GetRandomHost | Species.java:271-283 | The drawn index picks S first, then I, then R, with each host once. |
| SpeciesModel.Species.Share | Species.java:182-184 | The created count is the truncation of the initial count times the fraction. |
| SpeciesModel.Species.CreateHosts | Species.java:181-199 | Each compartment grows by its share. The infected hosts each carry a new child of the ur-virus in the deme, and exactly those children are added to the arena. |
| SpeciesModel.Species.Grow | Species.java:295-304 | Strictly inside the brood period, S gains exactly the drawn number of fresh naive hosts at its end. Otherwise nothing changes. I and R never change. |
| SpeciesModel.Species.DeclineCompartment | Species.java:332-343 | The compartment becomes Declined of its old contents; the others are untouched. |
| SpeciesModel.Species.Decline | Species.java:352-356 | S, I and R each become Declined of their old contents with their own draws. |
| SpeciesModel.Species.MakeSusceptibleFrom | Species.java:366-384 | A zero draw leaves everything alone. A positive one moves the whole compartment, reset, to the end of S in drained order. |
| SpeciesModel.Species.MakeSusceptible | Species.java:391-395 | The I and R passes each drain into S when their own draw is positive, and every host they move is reset (uninfected, empty history). |
| SpeciesModel.Species.Infect | Species.java:442-461 | The host is infected exactly when the uniform draw is below the risk from its immune history. It then leaves S by swap-removal, joins the end of I, and carries a new child of the virus. Otherwise nothing changes. |
| SpeciesModel.Species.InfectFrom | Species.java:418-420 | As Infect, with the infecting host's virus. |
| SpeciesModel.Species.RecoverHost | Species.java:476-486 | The host's infection is cleared and it leaves I by swap-removal. It joins R under transcendental immunity and S otherwise. The arena's shedding count drops by one. |
| SpeciesModel.Species.LooseImmunity | Species.java:497-501 | The host leaves R by swap-removal and joins the end of S. |
| SpeciesModel.Species.Vaccinate | Species.java:509-513 | The host leaves S by swap-removal and joins the end of R. |
| SpeciesModel.Species.Cull | Species.java:521-523 | The host leaves I by swap-removal; S and R are untouched. |
| SpeciesModel.Species.MutateInfected | HostSpeciesPopulation.java:391-392 | An infected host's mutation turns the arena into WithMutant of the old one: one new node, the child of its old virus carrying that virus's mutated phenotype; every other node is unchanged, and the shedding total is kept. The host's immune history is the same array as before. |
| SpeciesModel.Species.MakeTrunk | Species.java:529-542 | Every infected host's virus becomes trunk, only trunk flags change, parent-closure is kept, and every new trunk node is an ancestor-or-self of some infected host's virus. |
| SpeciesModel.Species.Clear | Species.java:547-551 | All three compartments are empty. |
| PopulationModel.JavaRemainder | HostSpeciesPopulation.java:205-210 | Java's int `%` takes the sign of the dividend and stays below the divisor in size. |
| PopulationModel.Population.constructor | HostSpeciesPopulation.java:36-52 | The deme, environment and species list are stored, the case count and day offset start at 0, and reset() runs: every species is cleared and refilled with its share of the initial susceptible, infected and recovered counts, the host registry is built, and the population is Valid over the arena. |
| PopulationModel.Population.Count | HostSpeciesPopulation.java:70-92 | getS, getI and getR are the totals of that compartment over all species. |
| PopulationModel.Population.GetN | HostSpeciesPopulation.java:62-68 | getN is the sum of the three totals. |
| PopulationModel.Population.RandomHost | HostSpeciesPopulation.java:128-165 | No host exactly when the compartment is empty. Otherwise the host at the drawn flat index of the species' lists joined in order, which is a host of one of the species. |
| PopulationModel.Population.RandomInfection | HostSpeciesPopulation.java:167-174 | No virus exactly when nobody is infected. Otherwise the virus of the drawn infected host, which is in the arena and has a parent. |
| PopulationModel.Population.DistributeRecoveries | HostSpeciesPopulation.java:351-364 | Exactly min(newRecoveries, I) infected hosts recover, into R under transcendental immunity and into S otherwise, and shedding drops by that number. |
| PopulationModel.Population.LoseImmunity | HostSpeciesPopulation.java:367-383 | Exactly min(returns, R) recovered hosts move to S; I and shedding stay. |
| PopulationModel.Population.Vaccinate | HostSpeciesPopulation.java:397-413 | Exactly min((int)(S·vaccinate), S) susceptible hosts move to R. |
| PopulationModel.Population.Cull | HostSpeciesPopulation.java:415-432 | Exactly min((int)(I·culling), I) infected hosts are removed. S, R and shedding stay. |
| PopulationModel.Population.Mutate | HostSpeciesPopulation.java:386-395 | The arena is MutatedFrom the old one with the first `mutations` draws: one mutated child of an earlier virus per draw, in order, and no earlier virus changes its parent or phenotype. The compartments and the shedding total stay. With some host infected: the parent of new node `base + j` is the virus that the host at flat index `draws[j]` of I carried just before round j (ParentsTraced), and each infected host ends with InfectionAfter all the rounds (InfectionsTraced). No host of the deme changes its immune history. |
| PopulationModel.Population.MutateRound | HostSpeciesPopulation.java:391-394 | One round of the loop mutates the drawn host, leaves I as it is, and carries ParentsTraced and InfectionsTraced from round i to round i + 1. No host's immune history changes. |
| PopulationModel.Population.Grow | HostSpeciesPopulation.java:260-264 | Every species' S is extended by its own brood births; I and R stay. |
| PopulationModel.Population.Decline | HostSpeciesPopulation.java:266-270 | Every species' S, I and R become Declined with that species' own draws. |
| PopulationModel.Population.Swap | HostSpeciesPopulation.java:272-276 | In every species, I and R are drained into S exactly when their own conversion draw is positive, and every moved host is reset. |
| PopulationModel.Population.SwapLoop | HostSpeciesPopulation.java:272-276 | The loop of swap() over the species: species j ends with I (or R) empty exactly when its I (or R) draw is positive, S gains those hosts in drawn order, the others keep their lists, and every host moved by any species is reset. |
| PopulationModel.Population.SwapRound | HostSpeciesPopulation.java:273-275 | One round of swap()'s loop: species i is drained as swap() leaves it (SwappedUpTo moves from i to i + 1), the other species keep their lists, and the hosts moved by species 0 … i are all reset. |
| PopulationModel.SwapLengths | HostSpeciesPopulation.java:272-276 | After swap() neither I nor R is longer over all species, and S + I + R is kept. |
| PopulationModel.DeclinedLengths | HostSpeciesPopulation.java:266-270 | After decline() none of S, I and R is longer over all species. |
| PopulationModel.Population.SwapCounted | HostSpeciesPopulation.java:272-276 | swap() over the deme: the totals of I and R never grow, and N = S + I + R is kept. |
| PopulationModel.Population.GrowPhase | HostSpeciesPopulation.java:205-209 | grow((int)day % 365) with each species' Poisson births leaves the totals of I and R unchanged. |
| PopulationModel.Population.DeclinePhase | HostSpeciesPopulation.java:210 | decline() with each species' Poisson deaths makes none of the totals of S, I and R grow. |
| PopulationModel.Population.GrowDecline | HostSpeciesPopulation.java:208-211 | grow then decline: the totals of I and R never grow. |
| PopulationModel.Population.Demography | HostSpeciesPopulation.java:205-211 | The demography step: the totals of I and R never grow, and under swap demography N is kept. |
| PopulationModel.Population.ContactPhase | HostSpeciesPopulation.java:214 | distributeContacts: with n the new cases, n ≤ newContacts and n ≤ S, and the totals become (S − n, I + n, R). |
| PopulationModel.Population.RecoveryPhase | HostSpeciesPopulation.java:215 | distributeRecoveries: with n = min(newRecoveries, I), the totals become (S, I − n, R + n) under transcendental immunity and (S + n, I − n, R) otherwise. |
| PopulationModel.Population.ImmunityPhase | HostSpeciesPopulation.java:367-383 | loseImmunity: with n = min(Poisson draw at rate R·immunityLoss·deltaT, R), the totals become (S + n, I, R − n). |
| PopulationModel.Population.Spread | HostSpeciesPopulation.java:214-218 | The distributions keep the population valid and every virus's parent, and cases rise by at most newContacts. |
| PopulationModel.Population.RecordContacts | HostSpeciesPopulation.java:279-283 | newContacts is the Poisson draw at rate I·PrS·beta·seasonality·deltaT. |
| PopulationModel.Population.RecordRecoveries | HostSpeciesPopulation.java:344-348 | newRecoveries is the Poisson draw at rate I·nu·deltaT. |
| PopulationModel.Population.MakeTrunk | HostSpeciesPopulation.java:454-458 | Every infected virus of the deme becomes trunk and only trunk flags change. Parent-closure is kept, and every new trunk node is an ancestor-or-self of an infected virus. |
| PopulationModel.Population.Reset | HostSpeciesPopulation.java:511-526 | Every species is cleared and refilled with its share of the initial S, I and R. |
| PopulationModel.InitialCountsOf | HostSpeciesPopulation.java:512-520 | S + I + R is the deme's initial size. I is 0 outside the initial deme, and R is 0 without transcendental immunity and otherwise within [0, N]. |
| PopulationModel.Population.DrawDeaths | Species.java:332-335 | Each species and compartment gets its own Poisson death count. |
| PopulationModel.Population.DrawConversions | Species.java:366-368 | Each species and compartment gets its own Poisson conversion count. |
| PopulationModel.Population.DrawBirths | Species.java:296-298 | Each species gets its own Poisson birth count. |
| PopulationModel.Population.Epidemic | HostSpeciesPopulation.java:212-218 | recordContacts and recordRecoveries store their draws, then the distributions run; cases rise by at most newContacts. |
| PopulationModel.Population.EnvironmentDay | HostSpeciesPopulation.java:224-230 | dayOffset advances by deltaT and returns to 0 once it reaches 1. Below 1 nothing else changes; at 1 the reservoir is cleared and environmental infections run. |
| PopulationModel.Population.MutationPhase | HostSpeciesPopulation.java:386-395 | As many mutation draws and drawn indices of I are used as the Poisson count at rate I·mu·deltaT, and the arena is MutatedFrom the old one with them. With some host infected, each new virus is the child of the virus its drawn host carried just before that round, and each infected host ends with the virus of the latest round that drew it, or its old one (ParentsTraced, InfectionsTraced). No host of the deme changes its immune history. |
| PopulationModel.Population.MutateOne | HostSpeciesPopulation.java:392-393 | The host at the drawn flat index of I mutates: the arena becomes WithMutant of the old one at that host's old virus, the new node's parent is that virus, the host now carries the new node, and every other infected host keeps its virus. No host changes its immune history. |
| PopulationModel.Population.MutateIn | HostSpeciesPopulation.java:393 | The mutation of a host of species `k` turns the arena into WithMutant of the old one at its old virus and keeps the population valid. The host keeps its immune history. |
| PopulationModel.Population.SamplingPhase | HostSpeciesPopulation.java:436-451 | With someone infected after burn-in, the Poisson number of samples, each an infected host's virus; otherwise none. |
| PopulationModel.Population.Sample | HostSpeciesPopulation.java:436-451 | Each sampled virus is that of the host at its drawn index of I; nothing is sampled before burn-in or with nobody infected. |
| PopulationModel.Population.StepForward | HostSpeciesPopulation.java:204-231 | One step: demography, epidemic, mutation, the daily environment step and sampling. Cases never fall, dayOffset follows the daily rule, and every sample is an infected host's virus. |
| PopulationModel.Population.UpdateDiversity | HostSpeciesPopulation.java:460-499 | With at most one infected host every statistic is 0. Otherwise the sampleCount drawn pairs are the pairs of drawn infections, and the statistics are StatsOf their sums. |
| PopulationModel.Population.DistributeContacts | HostSpeciesPopulation.java:286-310 | With n the new cases: n ≤ newContacts, n hosts move from S to I, shedding rises by n, and n is 0 when S or I starts empty. |
| PopulationModel.Population.BetweenDemeContact | HostSpeciesPopulation.java:314-341 | With n the new cases: n ≤ the drawn contacts and ≤ S, n hosts move from S to I, R stays, and n is 0 when S or I starts empty. |
| PopulationModel.Population.SelfContactCount | HostSpeciesPopulation.java:317-318 | The between-deme contact count is the Poisson draw at rate I·PrS·beta·betweenDemePro·seasonality·deltaT. |
| PopulationModel.Population.SelfContacts | SimulationSpecies.java:391-394 | The deme's pass against itself moves at most S hosts from S to I and counts them as cases. |
| PopulationModel.Population.ResetCases | HostSpeciesPopulation.java:176-178 | The case count is 0. |
| PopulationModel.Population.DoEnvironmentalInfections | HostSpeciesPopulation.java:233-256 | With n the new cases: n ≤ (int)(S·step·envUpTakeRate), n hosts move from S to I, shedding rises by n, and n is 0 for an empty reservoir. |
| PopulationModel.RoundsBounds | HostSpeciesPopulation.java:235 | The round count is the product rounded down, and 0 for a non-positive rate. |
| PopulationModel.PrS | HostSpeciesPopulation.java:94-96 | The susceptible share lies in [0, 1] and times N is S. |
| PopulationModel.ContactRateBounds | HostSpeciesPopulation.java:279-283 | No contact is expected without infected or susceptible hosts, and the rate is non-negative for non-negative parameters. |
| PopulationModel.EventRateBounds | HostSpeciesPopulation.java:344-348 | No event is expected over no host, and the rate is non-negative for non-negative parameters. |
| PopulationModel.ShareBounds | Species.java:182-184 | A truncated share of a count lies between 0 and the count. |
| Lineage.Up | Virus.java:147-152 | One step of a walk cursor: it moves to the parent, which has a smaller id, and stays put exactly at a root. |
| Lineage.AncestorWalk | Virus.java:138-156 | A node found by the walk is a node of the arena. |
| Lineage.CommonAncestor | Virus.java:132-160 | The cursor loop returns exactly the walk's result, CommonAncestorOf, which is an arena node when present. |
| Lineage.CommonAncestorOfSelf | Virus.java:139-141 | The walk from a virus and itself returns that virus. |
| Lineage.CommonAncestorIsOnAPath | Virus.java:139-146 | A found node is an ancestor-or-self of one of the two viruses, and of both unless it is the root re-inserted by a cursor that stopped. |
| Lineage.CommonAncestorExamples | Virus.java:139-155 | On a chain root←1←2←3 the walk from 1 and 3 returns the root although 1 is an ancestor of 3. From 1 and the root it returns nothing although the root is an ancestor of 1. |
| Lineage.CommonAncestorInOneTree | Virus.java:132-160 | In a single-rooted arena a found node is an ancestor-or-self of both viruses. |
| Lineage.Distance | Virus.java:162-172 | 0 when commonAncestor finds nothing; otherwise the two branch lengths back to the node found, which is a common ancestor or a root on one of the two paths; 0 from a virus to itself. |
| Lineage.DistanceNonNegative | Virus.java:162-172 | With births ordered along parents in a single-rooted arena, the distance is never negative. |
| Lineage.SearchAncestors | Virus.java:203-217 | The second coalescence loop yields 0.0 or 1.0. |
| Lineage.Coalescence | Virus.java:183-221 | The two loops return exactly CoalescenceOf, which is 0.0 or 1.0. |
| Lineage.CoalescenceMeansSharedAncestor | Virus.java:183-221 | A coalescence of 1.0 implies a proper ancestor shared by both viruses. |
| Lineage.WindowStep | Virus.java:192-197 | Inside the window a node's window ancestors are its parent and the parent's window ancestors. |
| Lineage.WindowClosed | Virus.java:192-200 | A root, or a node born at or before the window start, has no window ancestors. |
| Lineage.CollectIsWindow | Virus.java:190-201 | The first loop collects exactly the initial set plus the window ancestors of A. |
| Lineage.SearchIsWindow | Virus.java:203-217 | The second loop gives 1.0 exactly when some window ancestor of B is already collected. |
| Lineage.CoalescenceExactly | Virus.java:183-221 | 1.0 exactly when some node is a window ancestor of both viruses, each within its own window; 0.0 otherwise. |
| Lineage.CoalescenceOfRoot | Virus.java:193-200 | A root on either side gives 0.0. |
| Lineage.SerialInterval | Virus.java:224-227 | The parent's birth plus the interval is the virus's birth; with births ordered along parents it is never negative. |
| Lineage.AntigenicDistance | Virus.java:178-180 | The raw phenotype distance of the two viruses, non-negative with a sound square root. |
| Lineage.AntigenicDistanceProperties | Virus.java:178-180 | The antigenic distance is symmetric, and 0 for equal phenotypes. |
| Lineage.IsTip | Virus.java:121-123 | A virus is a tip exactly when no child is recorded. |
| Lineage.TipUntilChildAdded | Virus.java:110-123 | A new virus is a tip, and a virus given a child by addChild is not. |
| Lineage.WithChild | Virus.java:110-114 | addChild keeps a duplicate-free child list duplicate-free, contains the child and every old child and nothing else, and changes nothing when the child is present. |
| Lineage.WithChildIdempotent | Virus.java:110-114 | Adding the same child twice is adding it once. |
| Lineage.Arena.constructor | Virus.java:38-41 | The arena starts empty and valid. |
| Lineage.Arena.NewUrVirus | Virus.java:38-41 | Virus(): one new root node with the ur-phenotype in deme 0, at the next id. |
| Lineage.Arena.Replicate | Virus.java:44-49 | Virus(v, d): one new node, child of v, sharing v's phenotype. |
| Lineage.Arena.ReplicateWith | Virus.java:51-56 | Virus(v, d, p): one new node, child of v, with phenotype p. |
| Lineage.Arena.NewRoot | Virus.java:58-63 | Virus(d, p): one new root node with phenotype p. |
| Lineage.Arena.Mutate | Virus.java:126-130 | One new node, child of v, carrying the mutated phenotype; v itself is unchanged. |
| Lineage.WithMutant | Host.java:122-130 | The arena after one host mutation is MutatedFrom the old one with that draw: the new node is v's child with v's phenotype mutated, v only loses one shedder, the child has one, and every other node is unchanged. |
| MutationTrace.InfectionAfterLatest | HostSpeciesPopulation.java:390-394 | After i rounds, a host that no round drew still carries its old virus. Otherwise it carries the virus `base + j` of the latest round j that drew it. |
| MutationTrace.ParentsRound | HostSpeciesPopulation.java:392-393 | Round i makes node `base + i` the child of the virus its drawn host carried before the round. The earlier nodes keep their parents, so ParentsTraced holds for one more round. |
| MutationTrace.InfectionsRound | HostSpeciesPopulation.java:392-393 | Round i gives the drawn host node `base + i` and leaves every other host's virus alone, so InfectionsTraced holds for one more round. |
| Lineage.MutatedFromStep | HostSpeciesPopulation.java:391-394 | One more mutation after a run of them is a run with one more draw: earlier mutants and their parents keep their phenotypes. |
| Lineage.Arena.MakeTrunk | Virus.java:84-86 | Only v's trunk flag is set. |
| Lineage.Arena.AddChild | Virus.java:110-114 | Only v's children change, to WithChild of the old ones. |
| Lineage.Arena.HostInfected | Virus.java:240-242 | Only v's shedding count changes, by +1. |
| Lineage.Arena.HostRecovered | Virus.java:249-251 | Only v's shedding count changes, by −1. |
| Lineage.Arena.SetVolume | Virus.java:278-280 | Only v's volume changes. |
| GeometricPhenotype.SquaredDistance | GeometricPhenotype.java:37-44 | The sum of squared trait differences is non-negative. |
| GeometricPhenotype.SquaredDistanceSymmetric | GeometricPhenotype.java:37-44 | The sum of squares is symmetric. |
| GeometricPhenotype.Distance | GeometricPhenotype.java:37-44 | With a sound square root the distance is non-negative. |
| GeometricPhenotype.DistanceSymmetric | GeometricPhenotype.java:37-44 | The distance is symmetric. |
| GeometricPhenotype.DistanceToSelf | GeometricPhenotype.java:37-44 | A phenotype is at distance 0 from itself. |
| GeometricPhenotype.CrossRisk | GeometricPhenotype.java:72-73 | The pre-clamp risk 1 − exp(−d/antigenicShape)·minCrossImmunity is at most 1. |
| GeometricPhenotype.AntigenicDistance | GeometricPhenotype.java:46-51 | getAntigenicDistance uses the same curve and lies in [1 − minCrossImmunity, 1]. |
| GeometricPhenotype.CrossRiskMonotone | GeometricPhenotype.java:46-51 | With a positive antigenicShape and a non-negative minCrossImmunity, the curve 1 − exp(−d/antigenicShape)·minCrossImmunity never falls as d grows. |
| GeometricPhenotype.AntigenicDistanceMonotone | GeometricPhenotype.java:46-51 | A phenotype farther from p never has a smaller getAntigenicDistance to p. |
| GeometricPhenotype.ScanLength | GeometricPhenotype.java:58-69 | The scan reads entries up to and including the first closer than 0.01, or all of them. |
| GeometricPhenotype.ScanClosestIsMinimum | GeometricPhenotype.java:58-69 | The scanned closest distance is the minimum of the sentinel and the distances read. |
| GeometricPhenotype.EmptyHistoryClosest | GeometricPhenotype.java:57-58 | An empty history leaves the sentinel distance 100. |
| GeometricPhenotype.Risk | GeometricPhenotype.java:72-78 | The risk is at most 1 and at least min(1, 1 − homologousImmunity). It is one of those bounds or the pre-clamp risk, and the pre-clamp risk itself when that lies between them. |
| GeometricPhenotype.RiskMonotone | GeometricPhenotype.java:72-78 | The clamped risk never falls as the closest distance grows. |
| GeometricPhenotype.RiskOfInfection | GeometricPhenotype.java:55-80 | The scanning loop computes Risk of the closest distance, with the same bounds. |
| GeometricPhenotype.RiskAtZero | GeometricPhenotype.java:72-76 | At distance 0 the curve gives 1 − minCrossImmunity, so the risk is 1 − homologousImmunity when 0 ≤ homologousImmunity ≤ minCrossImmunity, and 1 − minCrossImmunity when 0 ≤ minCrossImmunity < homologousImmunity. |
| GeometricPhenotype.ExactPhenotypeRisk | GeometricPhenotype.java:58-76 | If the first history entry closer than 0.01 is the virus's own phenotype, the closest distance is 0. The risk is then the floor 1 − homologousImmunity when homologousImmunity ≤ minCrossImmunity (as with the defaults 0.05 and 0.7), and 1 − minCrossImmunity otherwise. |
| GeometricPhenotype.ContainedPhenotypeClose | GeometricPhenotype.java:58-76 | If the virus's own phenotype is anywhere in the history, the closest distance is below 0.01 and the risk is at most the risk at 0.01. Because the scan stops at the first close entry, the closest distance need not be 0. |
| GeometricPhenotype.GammaShape | GeometricPhenotype.java:96-99 | The gamma shape times sd² is mean². |
| GeometricPhenotype.GammaScale | GeometricPhenotype.java:96-99 | The gamma scale times mean is sd². |
| GeometricPhenotype.MutationAngle | GeometricPhenotype.java:87-93 | In 2-D the angle is the uniform draw; in 1-D it is 0 or π. |
| GeometricPhenotype.StepSize | GeometricPhenotype.java:94-101 | A fixed step is meanStep; otherwise it is the gamma draw at that shape and scale. |
| GeometricPhenotype.Mutate | GeometricPhenotype.java:84-108 | The new phenotype lies at exactly the step size from the old one, and in 1-D only traitA moves. |
| GeometricPhenotype.StepLength | GeometricPhenotype.java:103-106 | A step of length r along any angle lands at distance r. |
| Diversity.SumPairsSnoc | HostSpeciesPopulation.java:475-489 | One more sampled pair adds its distance, antigenic distance, coalescence and serial interval to the sums. |
| Diversity.SumAll | HostSpeciesPopulation.java:475-489 | The accumulating loop returns exactly SumPairs of the sampled pairs. |
| Diversity.MaxDistIsLargest | HostSpeciesPopulation.java:481-483 | The running tmrca is the largest sampled distance: non-negative, at least every distance, and 0 or attained. |
| Diversity.CoalCountBounds | HostSpeciesPopulation.java:485-486 | The coalescence count lies between 0 and the number of pairs. |
| Diversity.SumsNonNegative | HostSpeciesPopulation.java:479-487 | In a single-rooted arena with ordered births the distance and serial sums are non-negative; so is the antigenic sum with a sound square root. |
| Diversity.StatsOf | HostSpeciesPopulation.java:491-495 | netau is undefined exactly when the coalescence count is 0, and tmrca is half the largest distance. |
| SimulationModel.FirstAboveInterval | SimulationSpecies.java:149-157 | The scan stops at deme d exactly when the drawn index lies in d's cumulative interval of I, which then has some infected host. |
| SimulationModel.FirstAboveUnique | SimulationSpecies.java:149-157 | At most one deme satisfies the stopping rule. |
| SimulationModel.Pick | SimulationSpecies.java:145-157 | For an index below the world's I, some deme satisfies the stopping rule. |
| SimulationModel.ScanDemes | SimulationSpecies.java:145-157 | The cumulative scan stops at the first deme whose running I exceeds the index. |
| SimulationModel.Mean | SimulationSpecies.java:319-328 | 0 for an empty list, otherwise the sum over the size. |
| SimulationModel.MeanBounds | SimulationSpecies.java:319-328 | The mean of values within [lo, hi] lies within [lo, hi]. |
| SimulationModel.NextOffset | HostSpeciesPopulation.java:224-229 | The day offset is either reset to 0 or advanced by deltaT, and below 1 it is advanced. |
| SimulationModel.DemeInit | HostSpeciesPopulation.java:512-520 | The initial S, I and R of deme `deme` from the reset parameters sum to initialNs[deme], with no I outside the initial deme. |
| SimulationModel.Simulation.constructor | SimulationSpecies.java:39-55 | The world holds the given demes, with disjoint footprints, and is Valid; the day and every statistic start at 0 and every list is empty. |
| SimulationModel.Simulation.Count | SimulationSpecies.java:69-94 | getS, getI and getR are sums over the demes. |
| SimulationModel.Simulation.GetN | SimulationSpecies.java:60-67 | getN is the sum of the world's three totals. |
| SimulationModel.Simulation.GetCases | SimulationSpecies.java:96-103 | getCases is the sum of the demes' case counts. |
| SimulationModel.Simulation.RandomInfection | SimulationSpecies.java:138-168 | No virus exactly when the world has no infected host. Otherwise the virus of the drawn host in the deme the cumulative scan picks; it has a parent. |
| SimulationModel.Simulation.UpdateDiversity | SimulationSpecies.java:331-364 | The pairs are the drawn infections (none when nobody is infected); the statistics are StatsOf their sums. |
| SimulationModel.Simulation.SamplePairs | SimulationSpecies.java:345-347 | Each round draws two infections with getRandomInfection, or none when nobody is infected. |
| SimulationModel.Simulation.PushLists | SimulationSpecies.java:366-377 | Each of the ten lists gains exactly one value: the five statistics and the world's N, S, I, R and cases. |
| SimulationModel.Simulation.StepForward | SimulationSpecies.java:386-398 | Every deme steps and makes its between-deme passes, `day` advances by exactly deltaT, deme cases never fall, and every deme's dayOffset follows the daily rule. |
| SimulationModel.Simulation.Reset | SimulationSpecies.java:516-524 | day and diversity are 0, and every deme is reset to its initial counts. |
| SimulationModel.Simulation.ResetCases | SimulationSpecies.java:379-384 | Every deme's case count is 0, and so is their sum. |
| DayStatistics.Make | scripts/get_col_summary.cpp:49-51 | DayStats(day, v) summarizes exactly the one value v. |
| DayStatistics.Add | scripts/get_col_summary.cpp:54-64 | operator+ keeps the day and raises the count by one. |
| DayStatistics.WelfordStep | scripts/get_col_summary.cpp:55-60 | The Welford mean update is the new sum over the new count, and the M2 update matches the directly computed squared deviations. |
| DayStatistics.AddSummarizes | scripts/get_col_summary.cpp:54-64 | Adding v to a summary of xs gives a summary of xs + [v]: count, sum, mean = sum/count, squared deviations from the mean, minimum and maximum. |
| DayStatistics.SqDevNonNegative | scripts/get_col_summary.cpp:60 | The sum of squared deviations is never negative. |
| DayStatistics.SummaryBounds | scripts/get_col_summary.cpp:57-62 | For any summary, min ≤ mean ≤ max and the squared deviations are ≥ 0. |
| DayStatistics.AtInsert | scripts/get_col_summary.cpp:106-109 | Inserting a new day's entry keeps one entry per day in order and changes only that day's lookup. |
| DayStatistics.AtReplace | scripts/get_col_summary.cpp:110-115 | Replacing a day's entry keeps the order and changes only that day's lookup. |
| DayStatistics.PlacedLookup | scripts/get_col_summary.cpp:106-115 | The set after one value holds the accumulated entry for its day and the old entry for every other day. |
| DayStatistics.PlacedConsistent | scripts/get_col_summary.cpp:95-116 | aggregate keeps every day's entry the summary of exactly the values read for that day. |
| DayStatistics.ShownExactly | scripts/get_col_summary.cpp:118-126 | print shows exactly the entries from startDay on, in day order. |
| DayStatistics.StatSet.constructor | scripts/get_col_summary.cpp:92 | The set starts empty. |
| DayStatistics.StatSet.Aggregate | scripts/get_col_summary.cpp:95-116 | The day's entry becomes a fresh summary (new day) or the old one plus the value. No other day changes, and every entry still summarizes its day's values. |
| DayStatistics.StatSet.Rows | scripts/get_col_summary.cpp:118-126 | The printed rows are in day order and are exactly the entries with day ≥ startDay. |
| Clustering.Avg | out/production/antigen/scripts/Cluster.py:70-74 | getAvg is 0 for an empty list and otherwise times the length gives the sum. |
| Clustering.FlattenStep | out/production/antigen/scripts/Cluster.py:56-57 | Appending a leaf to the last cluster appends it to the leaf order and numbers it with the cluster count. |
| Clustering.LeafKeepsShape | out/production/antigen/scripts/Cluster.py:44-59 | A leaf visit keeps the invariants: all closed clusters non-empty, one fewer gap than clusters, gaps above cutoff, intra averages, 1-based ids. It appends the leaf to the leaf order. |
| Clustering.NumberedAfter | out/production/antigen/scripts/Cluster.py:46-57 | After a leaf visit every leaf's id is its cluster's 1-based index, and each recorded inter distance is the gap at which its cluster opened. |
| Clustering.Clusterer.constructor | out/production/antigen/scripts/Cluster.py:19-21 | One empty cluster, no inter distances, intra [0], distToPrev 0. |
| Clustering.Clusterer.VisitLeaf | out/production/antigen/scripts/Cluster.py:44-59 | The leaf branch performs AfterLeaf at gap distToPrev/treeDist: a cluster is cut exactly when the gap exceeds cutoff and the current cluster is non-empty. distToPrev becomes the leaf's own distance. |
| Clustering.Clusterer.CreateClusters | out/production/antigen/scripts/Cluster.py:31-59 | The recursion appends exactly the leaves below the node, in depth-first order, and keeps the invariants. |
| Clustering.Clusterer.VisitChildren | out/production/antigen/scripts/Cluster.py:37-40 | The child loop appends the leaves of the children in order. |
| Clustering.Cluster | out/production/antigen/scripts/Cluster.py:14-28 | A childless root gives empty results and treeDist = 0 gives an error. Otherwise the clusters concatenate to the leaves in depth-first order, every cluster is non-empty, there is one fewer inter distance than clusters, each above cutoff, each intra distance is its cluster's average, and the ids label each leaf's cluster. |
| Clustering.LabelsShape | out/production/antigen/scripts/Cluster.py:57 | There is one id per leaf, between 1 and the number of clusters. |
| TreeComparison.Error | out/production/antigen/scripts/ComparePhyTrees.py:18-24 | Both zero gives 0; a zero maximum otherwise is a division error; else the value times max(theor, exp) is 100·\|theor − exp\|. |
| TreeComparison.ErrorSymmetric | out/production/antigen/scripts/ComparePhyTrees.py:18-24 | error is symmetric. |
| TreeComparison.ErrorBounded | out/production/antigen/scripts/ComparePhyTrees.py:18-24 | For non-negative inputs error is defined, lies in [0, 100], and is 0 exactly on equal inputs. |
| TreeComparison.PercentOfTotal | out/production/antigen/scripts/ComparePhyTrees.py:42-47 | count/total·100 with total = 1 for no nodes is the percentage used by the model. |
| TreeComparison.FrequencyAt | out/production/antigen/scripts/ComparePhyTrees.py:37-47 | Every key below the bound holds its count as a percentage of all keys; any other key keeps its raw count. |
| TreeComparison.Percentages | out/production/antigen/scripts/ComparePhyTrees.py:33-50 | The counting and converting loops build exactly Frequencies of the keys. |
| TreeComparison.FrequenciesNonNegative | out/production/antigen/scripts/ComparePhyTrees.py:37-47 | Every frequency is non-negative. |
| TreeComparison.PercentSumIsShare | out/production/antigen/scripts/ComparePhyTrees.py:45-47 | The percentages below n sum to the share of keys below n. |
| TreeComparison.PercentagesAtMostHundred | out/production/antigen/scripts/ComparePhyTrees.py:45-47 | The percentages below the bound sum to at most 100, and to exactly 100 when every key is below it. |
| TreeComparison.ChildCounts | out/production/antigen/scripts/ComparePhyTrees.py:37-39 | One child count per descendant, in descendant order. |
| TreeComparison.NodeSizePercent | out/production/antigen/scripts/ComparePhyTrees.py:28-50 | calc_node_size_percent is Frequencies of the descendants' child counts. |
| TreeComparison.KeptErrorsBounded | out/production/antigen/scripts/ComparePhyTrees.py:65-69 | With non-negative frequencies every kept error is defined and in [0, 100]. |
| TreeComparison.Mean | out/production/antigen/scripts/ComparePhyTrees.py:70 | The mean times the count is the sum. |
| TreeComparison.MeanBounded | out/production/antigen/scripts/ComparePhyTrees.py:70 | A mean of values in [0, 100] lies in [0, 100]. |
| TreeComparison.NodeSizeError | out/production/antigen/scripts/ComparePhyTrees.py:53-70 | A childless tree on either side gives 100. Otherwise it is the mean of error over the kept k (equal, or either above 1), undefined when none is kept, and within [0, 100]. |
| TreeComparison.HeightOfChildren | out/production/antigen/scripts/ComparePhyTrees.py:145-150 | Every child is strictly lower, and an inner node is exactly one above its deepest child. |
| TreeComparison.NodeDepth | out/production/antigen/scripts/ComparePhyTrees.py:139-150 | 0 at the root; for any node strictly smaller than the root, 1 + the deepest child's depth, with a leaf at 1. |
| TreeComparison.DepthKeys | out/production/antigen/scripts/ComparePhyTrees.py:158-160 | One depth per descendant, in descendant order. |
| TreeComparison.NodeDepthPercent | out/production/antigen/scripts/ComparePhyTrees.py:152-169 | calc_node_depth_percent is Frequencies of the descendants' depths. |
| TreeComparison.DepthZeroEmpty | out/production/antigen/scripts/ComparePhyTrees.py:158-167 | No descendant has depth 0, so the depth-0 percentage is 0. |

## Left out

- Randomness: `Random.java` and the Colt engines are not modelled. Every draw is a parameter, as described above.
- Floating point: Java `double` is Dafny `real`, with no rounding, Infinity or NaN. `exp`, `sqrt`, `sin` and `cos` are uninterpreted functions from `Numerics.MathLib`, so no numeric value of theirs is proved. `Numerics.Sound` lists the only facts the proofs assume: sqrt is non-negative and inverts squaring on non-negatives; exp is positive, monotone, at most 1 on non-positives and 1 at 0; sin² + cos² = 1 with the values at 0 and π.
- Wrappers.TruncateToInt: models the truncation of `(int)` but not its saturation at the 32-bit limits. Counts are unbounded integers, so 32-bit overflow of host counts is not modelled either.
- EnvironmentModel.Environment.SetParam: for an unknown name the source prints a message and ends the program (`System.exit`). The model returns `ok == false` and leaves every field unchanged; ending the process is not modelled.
- EnvironmentModel.Environment.ClearViruses: requires a non-zero `envDurability` and a non-zero daily `clearRate`. With either at zero the source computes with Infinity or NaN, which `real` cannot represent.
- GeometricPhenotype.Mutate: requires `ValidMutation`, a non-zero `meanStep` and `sdStep` when the step is not fixed. Otherwise the source's gamma shape `mean²/sd²` is Infinity or NaN.
- GeometricPhenotype.StepSize: requires `ValidMutation`, for the same reason.
- Lineage.SerialInterval: requires a virus with a parent. On a root the source dereferences the null parent and throws; that exception is not modelled.
- SpeciesModel.Species.constructor: when `broodEnd == broodStart` the source's brood birth rate is Infinity or NaN; the model stores 0. The rate is never read in that case, because `grow` needs `broodStart < dayOfYear < broodEnd`.
- PopulationModel.PrS: is 0 for an empty deme, where the source computes 0/0 = NaN.
- PopulationModel.Population.UpdateDiversity: requires `sampleCount > 0` when the deme has more than one infected host. With no samples the source divides 0 by 0.
- SimulationModel.Simulation.UpdateDiversity: requires `sampleCount > 0`, because the source divides by the sample count unconditionally.
- PopulationModel.Population.StepForward: requires `ZeroMean(poisson)`, that a Poisson draw with mean 0 is 0, as Colt's sampler returns.
- PopulationModel.Population.StepForward: does not state the compartment sizes after a step. Demography, ContactPhase, RecoveryPhase and ImmunityPhase each state how the totals of S, I and R change, but those per-phase sizes are not composed through Spread, Epidemic and StepForward, whose contracts cover validity, parent closure, cases, dayOffset and the samples.
- PopulationModel.Population.Epidemic: does not state the compartment sizes after the distributions, for the same reason; it states the recorded draws and the bound on new cases.
- PopulationModel.Population.Spread: does not state the compartment sizes either; ContactPhase, RecoveryPhase and ImmunityPhase state them one phase at a time.
- SimulationModel.Simulation.StepForward: does not state any deme's compartment sizes after the step, because the per-deme StepForward does not. It states day, cases, dayOffset and the samples.
- GeometricPhenotype.ValidImmunity: requires `antigenicShape != 0.0`, where the source accepts 0 (GeometricPhenotype.java:48, 72). There `-d / 0` is −Infinity for d > 0, so the risk is 1, and NaN for d == 0; `real` has neither value.
- PopulationModel.Population.MutationPhase: requires `ZeroMean(poisson)`, for the same reason.
- HostModel.Host.FromCheckpoint: the parse is total. A coordinate that is not a number, or a field list too short to split, throws in the source (`Double.parseDouble`, array indexing); that error path is not modelled.
- PopulationModel.Population.Mutate: requires `mutations == 0 || Total(Infected) > 0`. With mutations and no infected host the source dereferences a null host.
- `HostSpeciesPopulation.getPrI` and `getPrR` (HostSpeciesPopulation.java:98-104) are not modelled: nothing in the source calls them. `HostSpeciesPopulation.getRandomHost` (HostSpeciesPopulation.java:122-126) is not modelled: it picks a uniformly random species, and only the risk-map code calls it.
- The checkpoint constructor of `HostSpeciesPopulation` is not modelled: it only throws.
- PopulationModel.Population.constructor: takes the deme's environment and species list as arguments, where the source looks them up by deme index and throws when either is missing; those two errors cannot arise in the model. It also requires the species in the list to be distinct objects, so that each host belongs to exactly one species. The deme name is not stored.
- SimulationModel.Simulation.constructor: takes the demes already built, each by `PopulationModel.Population.constructor`, where the source builds `new HostSpeciesPopulation(i)` for each deme index itself. Creating the output directory, and the exception when that fails, are file I/O and are not modelled. The checkpoint branch is not modelled either, because its constructor only throws.
- `SimulationSpecies.getRandomDeme` is not modelled: its loop condition is inverted and runs off the end of the list.
- `SimulationSpecies.getRandomHost`, `getAverageRisk` and `makeTrunk` are not modelled. They serve only the printing, risk-map and tree-output code. `PopulationModel.Population.MakeTrunk` models the per-deme trunk marking.
- `VirusTree` (pruning, rerooting, layout) and `PhenotypeFactory` are not part of this model. Their sources are not available, and `VirusTree.add` is treated as a sink that changes nothing modelled.
- Printing, file output, checkpoint writing, `run`, YAML loading, `Antigen` command-line handling and `MemoryUtil` profiling are not modelled.
- `Phenotype` is an interface; only its `GeometricPhenotype` realisation is modelled.
- `get_col_summary.cpp`: the `sd` and confidence-interval columns (square roots of `var`), the `istringstream` line parsing and `main` are not modelled. `count` is unbounded, where the source uses `int`.
- DayStatistics.WelfordStep, DayStatistics.AddSummarizes: are proved in exact arithmetic; floating-point rounding of the running mean and M2 is not modelled.
- `Cluster.py` and `ComparePhyTrees.py`: ete2 tree loading, `main`, `process_trees` and the `output_*` file writing are not modelled. Trees are values of `PhyloTrees.Tree`.
- Clustering.Cluster: returns no result for a non-trivial tree with `treeDist == 0`, where Python raises `ZeroDivisionError`. The recorded inter-cluster distances are proved to exceed the cutoff but not to be path lengths in the tree.
- Clustering.Avg: uses real division. Python 2 would divide an all-integer list with integer division, but the script only averages float distances.
- TreeComparison.Error: returns no value when `max(theor, exp) == 0` but the two are not both 0 (possible only with a negative input), where Python raises `ZeroDivisionError`.
- TreeComparison.NodeDepth: its contract says nothing about a node that is neither the root nor strictly smaller than it. Such a node is not a descendant of the root, and the script never asks for it.
- TreeComparison.NodeSizeError: returns no value when no k is kept, where Python's `mean` of an empty list raises an error.
- Concurrency: none in the source's core. The global mutable `Parameters` state is passed as explicit parameters.
