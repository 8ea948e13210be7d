/** Zone authorisation: whether a query name lies inside one of the zones
    the handler is configured for. This is the label-aligned,
    case-insensitive test `dns.IsSubDomain` performs for
    `plugin.Zones.Matches`, not the plain suffix test of the decoder. */
module Zones {
  import opened Text

  /** A zone as the configuration stores it: non-empty, lower-case and
      fully qualified (ending in `.`). */
  predicate Normalized(zone: string) {
    |zone| > 0 && IsLower(zone) && zone[|zone| - 1] == '.'
  }

  /** `name` equals `zone` or ends with `.` followed by `zone`, ignoring
      ASCII case; the root zone `.` contains every name. */
  predicate IsSubDomain(zone: string, name: string) {
    var z := ToLower(zone);
    var n := ToLower(name);
    z == "." || (HasSuffix(n, z) && (|n| == |z| || n[|n| - |z| - 1] == '.'))
  }

  /** Some configured zone contains the name: `Matches` returns a
      non-empty zone. */
  predicate InZones(qname: string, origins: seq<string>) {
    exists i :: 0 <= i < |origins| && IsSubDomain(origins[i], qname)
  }

  /** For a lower-case, fully qualified name and normalised zones, being
      inside a zone implies ending with it as plain text. */
  lemma SubDomainHasSuffix(zone: string, lname: string)
    requires Normalized(zone)
    requires IsLower(lname) && |lname| > 0 && lname[|lname| - 1] == '.'
    requires IsSubDomain(zone, lname)
    ensures HasSuffix(lname, zone)
  {
    ToLowerIsLower(zone);
    ToLowerIsLower(lname);
  }

  /** A normalised zone that a name ends with, right after a `.`, contains
      that name. */
  lemma BoundarySuffixIsSubDomain(zone: string, name: string)
    requires Normalized(zone)
    requires |zone| < |name| && HasSuffix(ToLower(name), zone) && name[|name| - |zone| - 1] == '.'
    ensures IsSubDomain(zone, ToLower(name))
  {
    var lname := ToLower(name);
    assert lname[|name| - |zone| - 1] == LowerChar(name[|name| - |zone| - 1]);
    ToLowerIsLower(zone);
    ToLowerIsLower(name);
  }
}
