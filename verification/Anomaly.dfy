/**
 * Anomaly flags of a submission (aggregator/src/validation/anomaly.ts) and what a majority of
 * the weather providers implies for them.
 */
module Anomaly {
  import opened Wrappers
  import opened Ensemble

  datatype AnomalyFlag =
    | TamperFlagSet | DivergentWeatherSources | WeatherUnavailable
    | EnergyInconsistentWithWeather | EnergyZscoreHigh | DriftDetected

  datatype AnomalyResult = AnomalyResult(flags: seq<AnomalyFlag>, reviewRequired: bool)

  const NIGHT_GHI_THRESHOLD: real := 10.0
  const NIGHT_ENERGY_THRESHOLD: int := 100
  const ZSCORE_OUTLIER_THRESHOLD: real := 3.0

  const HIGH_SEVERITY: set<AnomalyFlag> := {EnergyInconsistentWithWeather, TamperFlagSet}

  /** When each flag is meant to be raised. */
  predicate Raised(flag: AnomalyFlag, tamperFlag: int, totalEnergyMwh: int, ensemble: EnsembleResult,
                   zscore: Option<real>, drift: bool)
  {
    match flag
    case TamperFlagSet => tamperFlag != 0
    case DivergentWeatherSources => ensemble.status == Divergent
    case WeatherUnavailable => ensemble.status == Unavailable
    case EnergyInconsistentWithWeather =>
      && ensemble.status in {Agreed, Degraded}
      && ensemble.ghi < NIGHT_GHI_THRESHOLD && totalEnergyMwh > NIGHT_ENERGY_THRESHOLD
    case EnergyZscoreHigh =>
      zscore.Some? && (zscore.value > ZSCORE_OUTLIER_THRESHOLD || zscore.value < -ZSCORE_OUTLIER_THRESHOLD)
    case DriftDetected => drift
  }

  function One(raise: bool, flag: AnomalyFlag): seq<AnomalyFlag> {
    if raise then [flag] else []
  }

  /** All flags that are raised, in the order they are looked at. */
  function FlagsOf(raised: AnomalyFlag -> bool): seq<AnomalyFlag> {
    One(raised(TamperFlagSet), TamperFlagSet)
    + One(raised(DivergentWeatherSources), DivergentWeatherSources)
    + One(raised(WeatherUnavailable), WeatherUnavailable)
    + One(raised(EnergyInconsistentWithWeather), EnergyInconsistentWithWeather)
    + One(raised(EnergyZscoreHigh), EnergyZscoreHigh)
    + One(raised(DriftDetected), DriftDetected)
  }

  lemma OneCounts(raise: bool, flag: AnomalyFlag, f: AnomalyFlag)
    ensures multiset(One(raise, flag))[f] == if raise && f == flag then 1 else 0
  {
  }

  lemma FlagsOfIsExact(raised: AnomalyFlag -> bool, f: AnomalyFlag)
    ensures multiset(FlagsOf(raised))[f] == if raised(f) then 1 else 0
  {
    OneCounts(raised(TamperFlagSet), TamperFlagSet, f);
    OneCounts(raised(DivergentWeatherSources), DivergentWeatherSources, f);
    OneCounts(raised(WeatherUnavailable), WeatherUnavailable, f);
    OneCounts(raised(EnergyInconsistentWithWeather), EnergyInconsistentWithWeather, f);
    OneCounts(raised(EnergyZscoreHigh), EnergyZscoreHigh, f);
    OneCounts(raised(DriftDetected), DriftDetected, f);
    hide One;
  }

  /** Exactly the raised flags, each once; review exactly on one of the two severe ones. */
  method EvaluateAnomaly(tamperFlag: int, totalEnergyMwh: int, ensemble: EnsembleResult,
                         zscore: Option<real>, drift: bool)
    returns (result: AnomalyResult)
    ensures forall flag :: multiset(result.flags)[flag]
                        == if Raised(flag, tamperFlag, totalEnergyMwh, ensemble, zscore, drift) then 1 else 0
    ensures var severe := Raised(TamperFlagSet, tamperFlag, totalEnergyMwh, ensemble, zscore, drift)
                          || Raised(EnergyInconsistentWithWeather, tamperFlag, totalEnergyMwh, ensemble, zscore, drift);
            result.reviewRequired == severe
    ensures TamperFlagSet in result.flags <==> tamperFlag != 0
    ensures DivergentWeatherSources in result.flags <==> ensemble.status.Divergent?
    ensures WeatherUnavailable in result.flags <==> ensemble.status.Unavailable?
    ensures EnergyInconsistentWithWeather in result.flags <==>
              (ensemble.status.Agreed? || ensemble.status.Degraded?) && ensemble.ghi < 10.0 && totalEnergyMwh > 100
    ensures EnergyZscoreHigh in result.flags <==> zscore.Some? && !(-3.0 <= zscore.value <= 3.0)
    ensures DriftDetected in result.flags <==> drift
    ensures result.reviewRequired <==>
              TamperFlagSet in result.flags || EnergyInconsistentWithWeather in result.flags
  {
    ghost var raised := flag => Raised(flag, tamperFlag, totalEnergyMwh, ensemble, zscore, drift);
    var flags: seq<AnomalyFlag> := [];
    if tamperFlag != 0 {
      flags := flags + [TamperFlagSet];
    }
    ghost var before := One(raised(TamperFlagSet), TamperFlagSet);
    assert flags == before;
    if ensemble.status == Divergent {
      flags := flags + [DivergentWeatherSources];
    } else if ensemble.status == Unavailable {
      flags := flags + [WeatherUnavailable];
    }
    before := before + One(raised(DivergentWeatherSources), DivergentWeatherSources)
                     + One(raised(WeatherUnavailable), WeatherUnavailable);
    assert flags == before;
    if ensemble.status == Agreed || ensemble.status == Degraded {
      if ensemble.ghi < NIGHT_GHI_THRESHOLD && totalEnergyMwh > NIGHT_ENERGY_THRESHOLD {
        flags := flags + [EnergyInconsistentWithWeather];
      }
    }
    before := before + One(raised(EnergyInconsistentWithWeather), EnergyInconsistentWithWeather);
    assert flags == before;
    if zscore.Some? && (if zscore.value >= 0.0 then zscore.value else -zscore.value) > ZSCORE_OUTLIER_THRESHOLD {
      flags := flags + [EnergyZscoreHigh];
    }
    before := before + One(raised(EnergyZscoreHigh), EnergyZscoreHigh);
    assert flags == before;
    if drift {
      flags := flags + [DriftDetected];
    }
    assert flags == FlagsOf(raised);
    assert raised(TamperFlagSet) == (tamperFlag != 0) && raised(DriftDetected) == drift;
    assert raised(DivergentWeatherSources) == ensemble.status.Divergent?;
    assert raised(WeatherUnavailable) == ensemble.status.Unavailable?;
    assert raised(EnergyInconsistentWithWeather)
        == ((ensemble.status.Agreed? || ensemble.status.Degraded?) && ensemble.ghi < 10.0 && totalEnergyMwh > 100);
    assert raised(EnergyZscoreHigh) == (zscore.Some? && !(-3.0 <= zscore.value <= 3.0));
    hide Raised, One, FlagsOf;
    result := Summarise(flags, raised);
  }

  /** `flags.some(f => HIGH_SEVERITY.includes(f))`. */
  method Summarise(flags: seq<AnomalyFlag>, ghost raised: AnomalyFlag -> bool) returns (result: AnomalyResult)
    requires flags == FlagsOf(raised)
    ensures forall flag :: multiset(result.flags)[flag] == if raised(flag) then 1 else 0
    ensures forall flag :: flag in result.flags <==> raised(flag)
    ensures result.reviewRequired <==> raised(TamperFlagSet) || raised(EnergyInconsistentWithWeather)
  {
    hide One, FlagsOf;
    forall flag
      ensures multiset(flags)[flag] == if raised(flag) then 1 else 0
      ensures flag in flags <==> raised(flag)
    {
      FlagsOfIsExact(raised, flag);
      assert flag in flags <==> flag in multiset(flags);
    }
    result := AnomalyResult(flags, exists flag <- flags :: flag in HIGH_SEVERITY);
    assert result.reviewRequired <==> EnergyInconsistentWithWeather in flags || TamperFlagSet in flags;
  }

  /** The providers that see light. */
  function LightReports(points: seq<real>): nat {
    CountWithin(points, Some(NIGHT_GHI_THRESHOLD), None)
  }

  /**
   * A minority cannot make generation look nocturnal: if more than half of the responding
   * providers report at least 10 W/m2, energy is never called inconsistent with the weather.
   */
  lemma MajorityLightIsConsistent(points: seq<real>, options: EnsembleOptions, sqrt: real -> real,
                                  tamperFlag: int, totalEnergyMwh: int, zscore: Option<real>, drift: bool)
    requires 2 * LightReports(points) > |points|
    ensures !Raised(EnergyInconsistentWithWeather, tamperFlag, totalEnergyMwh,
                    Classify(points, options, sqrt), zscore, drift)
  {
    MajorityDecides(points, Some(NIGHT_GHI_THRESHOLD), None, options, sqrt);
  }

  /** Nor can a minority hide it: a dark majority that is trusted flags every substantial claim. */
  lemma MajorityDarkIsFlagged(points: seq<real>, dark: real, options: EnsembleOptions, sqrt: real -> real,
                              tamperFlag: int, totalEnergyMwh: int, zscore: Option<real>, drift: bool)
    requires dark < NIGHT_GHI_THRESHOLD && 2 * CountWithin(points, None, Some(dark)) > |points|
    requires totalEnergyMwh > NIGHT_ENERGY_THRESHOLD
    ensures var ensemble := Classify(points, options, sqrt);
            Raised(EnergyInconsistentWithWeather, tamperFlag, totalEnergyMwh, ensemble, zscore, drift)
            <==> ensemble.status != Divergent
  {
    MajorityDecides(points, None, Some(dark), options, sqrt);
    assert points != [];
  }

  /** Exactly half is not enough: two providers just either side of the limit raise the flag. */
  lemma HalfIsNotEnough(sqrt: real -> real, tamperFlag: int, zscore: Option<real>, drift: bool)
    requires IsSquareRoot(sqrt)
    ensures var points := [9.9, 10.0];
            && 2 * LightReports(points) == |points|
            && Raised(EnergyInconsistentWithWeather, tamperFlag, 101,
                      Classify(points, DEFAULT_OPTIONS, sqrt), zscore, drift)
  {
    var points := [9.9, 10.0];
    assert points[1..] == [10.0] && points[1..][1..] == [];
    assert CountWithin([10.0], Some(NIGHT_GHI_THRESHOLD), None) == 1;
    assert CountWithin(points, Some(9.9), Some(10.0)) == 2 by {
      assert CountWithin([10.0], Some(9.9), Some(10.0)) == 1;
    }
    AgreementIsRecognised(points, 9.9, 10.0, DEFAULT_OPTIONS, sqrt);
    assert SortAscending([10.0]) == [10.0] by { assert SortAscending([]) == []; }
    assert SortAscending(points) == [9.9, 10.0];
  }
}
