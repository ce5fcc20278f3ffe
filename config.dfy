/** The boilerplate catalogue (internal/config/config.go): a list of
    architectures offered and a map from architecture to its template. */
module Config {
  import opened Types

  datatype Boilerplate = Boilerplate(name: string, description: string, archiveUrl: string, modulePlaceholder: string)

  datatype Catalogue = Catalogue(availableArchitectures: seq<string>, boilerplates: map<string, Boilerplate>)

  datatype ConfigError =
    | NotFound(architecture: string)                                // "not found in configuration"
    | NotAvailable(architecture: string, available: seq<string>)    // "is not available"

  /** `GetBoilerplate`: the stored record when the key is present, and
      `NotFound` otherwise. */
  function GetBoilerplate(c: Catalogue, architecture: string): (r: Result<Boilerplate, ConfigError>)
    ensures r.Success? <==> architecture in c.boilerplates
    ensures r.Success? ==> r.value == c.boilerplates[architecture]
    ensures r.Failure? ==> r.error == NotFound(architecture)
  {
    if architecture in c.boilerplates then Success(c.boilerplates[architecture])
    else Failure(NotFound(architecture))
  }

  /** `ValidateArchitecture`: a linear search of the offered list, returning
      at the first equal element. */
  method ValidateArchitecture(c: Catalogue, architecture: string) returns (err: Option<ConfigError>)
    ensures err.None? <==> architecture in c.availableArchitectures
    ensures err.Some? ==> err.value == NotAvailable(architecture, c.availableArchitectures)
  {
    var archs := c.availableArchitectures;
    var i := 0;
    while i < |archs|
      invariant 0 <= i <= |archs|
      invariant architecture !in archs[..i]
    {
      if archs[i] == architecture {
        return None;
      }
      assert archs[..i + 1] == archs[..i] + [archs[i]];
      i := i + 1;
    }
    assert archs[..i] == archs;
    return Some(NotAvailable(architecture, archs));
  }

  /** The list and the map are kept separately, so an architecture can be
      offered without having a template: validation passes and the lookup
      then fails. */
  lemma ListAndMapIndependent()
    ensures var c := Catalogue(["hexagonal"], map[]);
      "hexagonal" in c.availableArchitectures && GetBoilerplate(c, "hexagonal").Failure?
  {
  }
}
