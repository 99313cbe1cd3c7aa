/** Worked cases of back-end selection over small discovered lists. */
module SelectionCases {
  import opened Wrappers
  import opened CodeText
  import opened Version
  import opened Discovery
  import opened Selection

  function Installed(v: VersionInfo): Backend {
    Backend(v, Root, Jvm, [Executable, "mphserver"])
  }

  const V53a: VersionInfo := VersionInfo(FromString("5.3a"), 5, 3, Some(1), 0)
  const V60: VersionInfo := VersionInfo(FromString("6.0"), 6, 0, Some(0), 0)

  /** The latest of 5.3a and 6.0 is 6.0, in either order. */
  lemma CaseLatest()
    ensures Select([Installed(V53a), Installed(V60)], None) == Ok(Installed(V60))
    ensures Select([Installed(V60), Installed(V53a)], None) == Ok(Installed(V60))
  {
    var older, newer := Tuple(KeyOf(Installed(V53a))), Tuple(KeyOf(Installed(V60)));
    assert LexLess(older, newer);
    SelectLatest([Installed(V53a), Installed(V60)]);
    SelectLatest([Installed(V60), Installed(V53a)]);
  }

  /** A name selects its back-end; an unknown name is a lookup error. */
  lemma CaseByName()
    ensures Select([Installed(V53a), Installed(V60)], Some(FromString("5.3a"))) == Ok(Installed(V53a))
    ensures Select([Installed(V53a), Installed(V60)], Some(FromString("9.9"))) == Err(NoSuchVersion)
  {
    var backends := [Installed(V53a), Installed(V60)];
    assert |FromString("5.3a")| != |FromString("6.0")| && |FromString("9.9")| != |FromString("5.3a")|;
    assert FromString("9.9")[0] != FromString("6.0")[0];
    SelectByName(backends, FromString("5.3a"));
    assert backends[0].version.name == FromString("5.3a") && backends[1].version.name != FromString("5.3a");
    assert Select(backends, Some(FromString("5.3a"))).Ok?;
    SelectByName(backends, FromString("9.9"));
  }

  /** An empty list has nothing to select. */
  lemma CaseEmpty(version: Option<Text>)
    ensures Select([], version) == Err(NoInstallation)
  {
  }

  /** Comparing the fallback record with a 6.2 record that has a patch raises a TypeError. */
  lemma CaseFallbackIncomparable()
    ensures Select([Installed(Fallback), Installed(VersionInfo(FromString("6.2a"), 6, 2, Some(1), 0))], None)
         == Err(Incomparable)
  {
  }
}
