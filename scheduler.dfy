/** Mode dispatch: the configuration names one of the three runners; any
    other mode is a panic. */
module Scheduler {
  import opened Wrappers
  import opened Orb
  import opened Sequential
  import ParallelBasic
  import ParallelSteal
  import StealSchedule

  /** The run configuration: data directories, scheduling mode and thread
      count. Only the mode is consulted by the dispatch. */
  datatype Config = Config(dataDirs: string, mode: string, threadCount: int)

  /** The three runners a mode can select. */
  datatype Runner = SequentialRunner | ParallelBasicRunner | ParallelStealRunner

  /** Schedule's if/else chain: "s", "pb" and "ps" select their runners, every
      other string (the empty one and other spellings included) panics. */
  function Schedule(config: Config): (r: Result<Runner, Panic>)
    ensures r == Success(SequentialRunner) <==> config.mode == "s"
    ensures r == Success(ParallelBasicRunner) <==> config.mode == "pb"
    ensures r == Success(ParallelStealRunner) <==> config.mode == "ps"
    ensures r.Failure? <==> config.mode !in {"s", "pb", "ps"}
    ensures r.Failure? ==> r.error == InvalidSchedulingScheme
  {
    if config.mode == "s" then Success(SequentialRunner)
    else if config.mode == "pb" then Success(ParallelBasicRunner)
    else if config.mode == "ps" then Success(ParallelStealRunner)
    else Failure(InvalidSchedulingScheme)
  }

  /** The outcome depends on the mode alone: the thread count is not
      validated and the data directories are not looked at. */
  lemma ScheduleReadsOnlyMode(a: Config, b: Config)
    requires a.mode == b.mode
    ensures Schedule(a) == Schedule(b)
  {
  }

  /** Modes are compared exactly, so other spellings of a valid mode panic. */
  lemma ModeIsCaseSensitive(config: Config)
    requires config.mode in {"S", "PB", "PS", "Ps", "pS", "Pb", "pB", ""}
    ensures Schedule(config) == Failure(InvalidSchedulingScheme)
  {
    assert config.mode !in {"s", "pb", "ps"};
  }

  /** Zones as the loader leaves them, every sum still 0. */
  predicate Unaggregated(zones: seq<ZipcodeArea>)
  {
    forall j :: 0 <= j < |zones| ==> zones[j].popSum == 0
  }

  /** Schedule followed by the runner it selects, on tracts and zones already
      loaded from the configuration's data directories. */
  method Dispatch(config: Config, tracts: seq<CensusTract>, zones: array<ZipcodeArea>, contains: Contains)
    returns (r: Outcome<Panic>)
    modifies zones
    ensures Schedule(config).Failure? ==> r == Fail(InvalidSchedulingScheme) && zones[..] == old(zones[..])
    ensures config.mode == "s" ==> r == Pass && zones[..] == Aggregated(old(zones[..]), tracts, contains)
    ensures config.mode == "pb" ==> (r.Pass? <==> config.threadCount >= 0)
    ensures config.mode == "pb" && config.threadCount >= 1 && ParallelBasic.DistinctZips(old(zones[..])) && old(Unaggregated(zones[..])) ==>
      zones[..] == Aggregated(old(zones[..]), tracts, contains)
    ensures config.mode == "ps" && r.Pass? && tracts != [] ==>
      config.threadCount > 0 &&
      zones[..] == Aggregated(old(zones[..]), StealSchedule.WithoutLost(tracts, config.threadCount), contains)
  {
    match Schedule(config)
    case Failure(e) =>
      r := Fail(e);
    case Success(SequentialRunner) =>
      RunSequential(tracts, zones, contains);
      r := Pass;
    case Success(ParallelBasicRunner) =>
      r := ParallelBasic.RunParallelBasic(tracts, zones, config.threadCount, contains);
      if r.Pass? && config.threadCount >= 1 && ParallelBasic.DistinctZips(old(zones[..])) && old(Unaggregated(zones[..])) {
        ParallelBasic.ParallelBasicMatchesSequential(old(zones[..]), tracts, config.threadCount, contains);
      }
    case Success(ParallelStealRunner) =>
      r := ParallelSteal.RunParallelSteal(tracts, zones, config.threadCount, contains);
  }
}
