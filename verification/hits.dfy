/** The hit (one recorded page view or event) as far as export and import
    touch it, and the 128-bit session identity it carries. */
module Hits {
  import opened Wrappers
  import opened Text

  const Uint128Limit: nat := 0x1_0000_0000_0000_0000_0000_0000_0000_0000

  /** zint.Uint128; its zero value is 0. */
  type Uint128 = x: nat | x < Uint128Limit

  /** Uint128.Bytes: the 16 bytes of the value, most significant first. */
  function SessionBytes(u: Uint128): (b: seq<byte>)
    ensures |b| == 16
    ensures BigEndianValue(b) == u
  {
    Pow256Of16();
    BigEndianRoundTrip(u, 16);
    BigEndian(u, 16)
  }

  lemma Pow256Of16()
    ensures Pow256(16) == Uint128Limit
  {
    assert Pow256(2) == 0x1_0000;
    assert Pow256(4) == 0x1_0000_0000;
    assert Pow256(6) == 0x1_0000_0000_0000;
    assert Pow256(8) == 0x1_0000_0000_0000_0000;
    assert Pow256(10) == 0x1_0000_0000_0000_0000_0000;
    assert Pow256(12) == 0x1_0000_0000_0000_0000_0000_0000;
    assert Pow256(14) == 0x1_0000_0000_0000_0000_0000_0000_0000;
  }

  /** A time.Time as the RFC 3339 layout can carry it: whole seconds since the
      Unix epoch and the offset of the zone it is written in. */
  datatype Time = Time(unixSeconds: int, utcOffsetSeconds: int)

  /** The screen size list ([]float64 in the hit); its numbers are only ever
      produced and consumed by library code, so exact reals stand in for them. */
  type ScreenSize = seq<real>

  /** The four referrer-scheme codes a hit may carry (RefSchemeHTTP,
      RefSchemeOther, RefSchemeGenerated, RefSchemeCampaign). */
  const RefSchemeHTTP := "h"
  const RefSchemeOther := "o"
  const RefSchemeGenerated := "g"
  const RefSchemeCampaign := "c"
  const RefSchemes: set<string> := {RefSchemeHTTP, RefSchemeOther, RefSchemeGenerated, RefSchemeCampaign}

  /** The fields of a hit that export writes and import reads back. A session
      is the 128-bit `session`, unless the hit predates those and carries the
      numeric `oldSession`. */
  datatype Hit = Hit(
    id: int,
    site: int,
    path: string,
    title: string,
    event: bool,
    bot: int,
    session: Uint128,
    oldSession: Option<int>,
    firstVisit: bool,
    ref: string,
    refScheme: Option<string>,
    browser: string,
    size: ScreenSize,
    location: string,
    createdAt: Time)
}
