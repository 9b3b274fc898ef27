/**
 * The WslDistribution record: one row of the installed-distribution
 * listing, and its derived running flag.
 */
module Distributions {
  import opened Text

  /** Name, raw state token, WSL version (an Int32 in the source) and the
      default-distribution flag. */
  datatype Distribution = Distribution(name: string, state: string, version: int, isDefault: bool)

  /** The state tokens the application knows by name. */
  const StateRunning: string := "Running"
  const StateStopped: string := "Stopped"
  const StateInstalling: string := "Installing"

  /** `new WslDistribution()`: empty name and state, version 0, not default. */
  function Fresh(): Distribution {
    Distribution("", "", 0, false)
  }

  /** IsRunning: the state equals "Running" under ordinal case-insensitive comparison. */
  predicate IsRunning(d: Distribution) {
    EqualsIgnoreCase(d.state, StateRunning)
  }

  /** IsRunning, spelled out letter by letter. */
  lemma IsRunningIff(d: Distribution)
    ensures IsRunning(d) <==>
      |d.state| == 7 && forall i :: 0 <= i < 7 ==> ToUpperAscii(d.state[i]) == "RUNNING"[i]
  {
    var u := ToUpper(StateRunning);
    assert u == "RUNNING";
    if |d.state| == 7 && forall i :: 0 <= i < 7 ==> ToUpperAscii(d.state[i]) == "RUNNING"[i] {
      assert ToUpper(d.state) == u;
    }
  }

  /** Any capitalisation of "Running" counts as running. */
  lemma RunningSpellings(name: string, version: int, isDefault: bool)
    ensures IsRunning(Distribution(name, "Running", version, isDefault))
    ensures IsRunning(Distribution(name, "RUNNING", version, isDefault))
    ensures IsRunning(Distribution(name, "running", version, isDefault))
    ensures IsRunning(Distribution(name, "rUnNiNg", version, isDefault))
  {
    IsRunningIff(Distribution(name, "Running", version, isDefault));
    IsRunningIff(Distribution(name, "RUNNING", version, isDefault));
    IsRunningIff(Distribution(name, "running", version, isDefault));
    IsRunningIff(Distribution(name, "rUnNiNg", version, isDefault));
  }

  /** The other known states, and a padded or shortened "Running", do not count. */
  lemma OtherStatesNotRunning(name: string, version: int, isDefault: bool)
    ensures !IsRunning(Distribution(name, StateStopped, version, isDefault))
    ensures !IsRunning(Distribution(name, StateInstalling, version, isDefault))
    ensures !IsRunning(Distribution(name, "Running ", version, isDefault))
    ensures !IsRunning(Distribution(name, "Run", version, isDefault))
  {
    IsRunningIff(Distribution(name, StateStopped, version, isDefault));
    assert ToUpperAscii(StateStopped[0]) != "RUNNING"[0];
    IsRunningIff(Distribution(name, StateInstalling, version, isDefault));
    IsRunningIff(Distribution(name, "Running ", version, isDefault));
    IsRunningIff(Distribution(name, "Run", version, isDefault));
  }

  /** A freshly constructed record is not running. */
  lemma FreshNotRunning()
    ensures Fresh().name == [] && Fresh().state == []
    ensures !IsRunning(Fresh())
  {
    IsRunningIff(Fresh());
  }

  /** IsRunning reads the state only. */
  lemma IsRunningDependsOnStateOnly(d: Distribution, name: string, version: int, isDefault: bool)
    ensures IsRunning(d.(name := name, version := version, isDefault := isDefault)) == IsRunning(d)
  {
  }
}
