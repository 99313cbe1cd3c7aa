/**
 * Discovery on the one supported installation (`search_chalmers_linux` in
 * mph/discovery.py). The output of `comsol server --version`, already decoded
 * and stripped, is a parameter; running the tool is not modelled.
 */
module Discovery {
  import opened Wrappers
  import opened CodeText
  import opened Version

  /** The record discovery substitutes when the version text does not parse. */
  const Fallback: VersionInfo := VersionInfo(FromString("6.2"), 6, 2, None, 666)

  /** The installation's fixed layout. */
  const Base: string := "/chalmers/sw/sup64/comsol-6.2"
  const Root: string := Base + "/installed"
  const Executable: string := Base + "/wbin/comsol"
  const Jvm: string := Base + "/installed/java/glnxa64/jre/lib/server/libjvm.so"

  /** One discovered back-end: its version record and the paths kept beside it. */
  datatype Backend = Backend(version: VersionInfo, root: string, jvm: string, server: seq<string>)

  /** The version record of an installation whose version output is `output`. */
  function VersionOf(output: Text): VersionInfo
    requires IsAscii(output)
  {
    match Parse(output)
    case Ok(v) => v
    case Err(_) => Fallback
  }

  /** The list discovery returns: the one installation, with its version record. */
  function SearchChalmersLinux(output: Text): (backends: seq<Backend>)
    requires IsAscii(output)
  {
    [Backend(VersionOf(output), Root, Jvm, [Executable, "mphserver"])]
  }

  /** A version text that does not parse yields exactly the fallback record; one that does yields the parsed record. */
  lemma VersionOfParsedOrFallback(output: Text)
    requires IsAscii(output)
    ensures Parse(output).Err? ==> VersionOf(output) == Fallback
    ensures Parse(output).Ok? ==> VersionOf(output) == Parse(output).value
  {
  }

  /** The fallback is recognisable: the record lacks a patch exactly when parsing failed. */
  lemma FallbackLacksPatch(output: Text)
    requires IsAscii(output)
    ensures VersionOf(output).patch.None? <==> Parse(output).Err?
  {
  }

  /** Parsed or substituted, the record's name is the short-hand of its numbers. */
  lemma VersionOfWellNamed(output: Text)
    requires IsAscii(output)
    ensures WellNamed(VersionOf(output))
  {
    assert Name(6, 2, 0) == FromString("6.2");
  }
}
