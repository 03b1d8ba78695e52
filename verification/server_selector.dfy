/** `ServerSelectorType`: a named comparator over services, used to pick the
    server a player is sent to. */
module SelectorTypes {

  import opened Wrappers
  import opened Comparison

  /** The part of a `ServiceInfoSnapshot` the comparators read: its
      `ONLINE_COUNT` property, absent when the service has not published it. */
  datatype ServiceInfo = ServiceInfo(serviceName: string, onlineCount: Option<int>)

  /** `propertyOr(ONLINE_COUNT, 0)`. */
  function OnlineCount(s: ServiceInfo): int {
    match s.onlineCount
    case Some(n) => n
    case None => 0
  }

  /** The comparators a selector type can carry: the two built-in
      deterministic ones, the built-in random one, and any other one a user
      registers, told apart by a tag. */
  datatype ServiceComparator = HighestPlayersOrder | LowestPlayersOrder | RandomOrder | CustomOrder(tag: nat)

  predicate Deterministic(c: ServiceComparator) {
    c.HighestPlayersOrder? || c.LowestPlayersOrder?
  }

  /** The two deterministic comparators: `HIGHEST_PLAYERS` orders by online
      count ascending (so a maximum search prefers the fullest service),
      `LOWEST_PLAYERS` by online count descending; a missing count is 0. */
  function Compare(c: ServiceComparator, a: ServiceInfo, b: ServiceInfo): (r: int)
    requires Deterministic(c)
    ensures r == -1 || r == 0 || r == 1
    ensures c.HighestPlayersOrder? ==> (r < 0 <==> OnlineCount(a) < OnlineCount(b))
    ensures c.LowestPlayersOrder? ==> (r < 0 <==> OnlineCount(a) > OnlineCount(b))
    ensures r == 0 <==> OnlineCount(a) == OnlineCount(b)
  {
    match c
    case HighestPlayersOrder => CompareInt(OnlineCount(a), OnlineCount(b))
    case LowestPlayersOrder => CompareInt(OnlineCount(b), OnlineCount(a))
  }

  /** `LOWEST_PLAYERS` is `HIGHEST_PLAYERS` with the sign reversed. */
  lemma LowestReversesHighest(a: ServiceInfo, b: ServiceInfo)
    ensures Compare(LowestPlayersOrder, a, b) == -Compare(HighestPlayersOrder, a, b)
    ensures Compare(LowestPlayersOrder, a, b) == Compare(HighestPlayersOrder, b, a)
  {
  }

  /** Both deterministic comparators obey the `Comparator` contract: the sign
      flips with the arguments and "at most" is transitive. */
  lemma ComparatorContract(c: ServiceComparator, a: ServiceInfo, b: ServiceInfo, d: ServiceInfo)
    requires Deterministic(c)
    ensures Compare(c, a, b) == -Compare(c, b, a)
    ensures Compare(c, a, b) <= 0 && Compare(c, b, d) <= 0 ==> Compare(c, a, d) <= 0
  {
  }

  datatype SelectorType = SelectorType(name: string, comparator: ServiceComparator)

  /** A `ServerSelectorType.Builder`: a field is absent until it is set
      (its setters reject null). */
  datatype Builder = Builder(name: Option<string>, comparator: Option<ServiceComparator>)

  const NameMissing := "Missing server selector name"
  const ComparatorMissing := "Missing server selector comparator"

  /** `Builder.build`: the name is checked first, then the comparator. */
  function Build(b: Builder): (r: Result<SelectorType, Fault>)
    ensures r.Success? <==> b.name.Some? && b.comparator.Some?
    ensures b.name.None? ==> r == Failure(NullArgument(NameMissing))
    ensures b.name.Some? && b.comparator.None? ==> r == Failure(NullArgument(ComparatorMissing))
    ensures r.Success? ==> r.value.name == b.name.value && r.value.comparator == b.comparator.value
  {
    if b.name.None? then Failure(NullArgument(NameMissing))
    else if b.comparator.None? then Failure(NullArgument(ComparatorMissing))
    else Success(SelectorType(b.name.value, b.comparator.value))
  }

  /** `builder(type)`: a builder pre-filled with the type's name and comparator. */
  function BuilderOf(t: SelectorType): (b: Builder)
    ensures b.name == Some(t.name) && b.comparator == Some(t.comparator)
  {
    Builder(Some(t.name), Some(t.comparator))
  }

  /** Building straight from `builder(type)` gives back an equal type. */
  lemma BuilderOfRoundTrip(t: SelectorType)
    ensures Build(BuilderOf(t)) == Success(t)
  {
  }

  const HighestPlayers := SelectorType("HIGHEST_PLAYERS", HighestPlayersOrder)
  const LowestPlayers := SelectorType("LOWEST_PLAYERS", LowestPlayersOrder)
  const Random := SelectorType("RANDOM", RandomOrder)
}

/** `ServerSelectorProvider`: the registry of selector types, keyed by their
    upper-cased names so that lookups ignore case. */
module SelectorProvider {

  import opened Wrappers
  import opened Text
  import opened SelectorTypes

  datatype Provider = Provider(types: map<string, SelectorType>)

  /** Every entry sits under the upper-cased name of its type. */
  predicate KeyedByUpperName(p: Provider) {
    forall k :: k in p.types ==> k == ToUpper(p.types[k].name)
  }

  /** `registerServerSelectorType`: stores the type under its upper-cased
      name, replacing any type already there, and touches no other key. */
  function Register(p: Provider, t: SelectorType): (r: Provider)
    ensures r.types.Keys == p.types.Keys + {ToUpper(t.name)}
    ensures r.types[ToUpper(t.name)] == t
    ensures forall k :: k in p.types && k != ToUpper(t.name) ==> r.types[k] == p.types[k]
    ensures KeyedByUpperName(p) ==> KeyedByUpperName(r)
  {
    Provider(p.types[ToUpper(t.name) := t])
  }

  /** The constructor: the three built-in types. */
  function NewProvider(): (r: Provider)
    ensures r.types.Keys == {"HIGHEST_PLAYERS", "LOWEST_PLAYERS", "RANDOM"}
    ensures r.types["HIGHEST_PLAYERS"] == HighestPlayers
    ensures r.types["LOWEST_PLAYERS"] == LowestPlayers
    ensures r.types["RANDOM"] == Random
    ensures KeyedByUpperName(r)
  {
    ToUpperOfUpper(HighestPlayers.name);
    ToUpperOfUpper(LowestPlayers.name);
    ToUpperOfUpper(Random.name);
    var withHighest := Register(Provider(map[]), HighestPlayers);
    var withLowest := Register(withHighest, LowestPlayers);
    Register(withLowest, Random)
  }

  /** `serverSelectorType(name)`: the entry under the upper-cased name, or
      null (`None`). */
  function Lookup(p: Provider, name: string): (r: Option<SelectorType>)
    ensures r.Some? <==> ToUpper(name) in p.types
    ensures r.Some? ==> r.value == p.types[ToUpper(name)]
  {
    if ToUpper(name) in p.types then Some(p.types[ToUpper(name)]) else None
  }

  /** `knownServerSelectorTypes`: a read-only view of the registry; each of
      its keys finds its own entry through `serverSelectorType`. */
  function KnownServerSelectorTypes(p: Provider): (r: map<string, SelectorType>)
    requires KeyedByUpperName(p)
    ensures r.Keys == p.types.Keys
    ensures forall k :: k in r ==> Lookup(p, k) == Some(r[k])
  {
    forall k | k in p.types ensures ToUpper(k) == k {
      ToUpperIdempotent(p.types[k].name);
    }
    p.types
  }

  /** A registered type is found under its own name written in any case. */
  lemma RegisterThenLookup(p: Provider, t: SelectorType, name: string)
    requires ToUpper(name) == ToUpper(t.name)
    ensures Lookup(Register(p, t), name) == Some(t)
  {
  }

  /** Registering leaves the answer for every other name as it was. */
  lemma RegisterKeepsOtherLookups(p: Provider, t: SelectorType, name: string)
    requires ToUpper(name) != ToUpper(t.name)
    ensures Lookup(Register(p, t), name) == Lookup(p, name)
  {
  }

  /** Lookups ignore case: names that upper-case alike find the same entry. */
  lemma LookupIgnoresCase(p: Provider, a: string, b: string)
    requires ToUpper(a) == ToUpper(b)
    ensures Lookup(p, a) == Lookup(p, b)
  {
  }
}
