/** The scoring half of the mix recommendation engine: a catalog row is
    turned into a feature record, and a candidate's feature record is
    scored against the base track's. Lower scores mean a better fit.

    JavaScript numbers are modelled as exact reals (only + - * /, abs, min,
    max and squaring occur); a missing or NaN field is `None`. */
module RecommendationEngine {
  import opened Wrappers

  /* ---------------- Catalog rows and feature records ---------------- */

  /** A catalog row as the catalog query returns it. Only the columns the
      engine reads are named; every other column travels in `otherColumns`
      and is republished untouched. */
  datatype Row = Row(
    trackTempo: Option<real>,
    trackEnergy: Option<real>,
    trackDanceability: Option<real>,
    trackValence: Option<real>,
    trackLoudness: Option<real>,
    trackKey: Option<int>,
    trackMode: Option<int>,
    trackPopularity: Option<real>,
    trackSpotifyPopularity: Option<real>,
    artistId: Option<string>,
    otherColumns: map<string, string>)

  /** The engine's feature record for one track. */
  datatype Features = Features(
    tempo: Option<real>,
    energy: Option<real>,
    danceability: Option<real>,
    valence: Option<real>,
    loudness: Option<real>,
    key: Option<int>,
    mode: Option<int>,
    popularity: Option<real>,
    artistId: Option<string>)

  /* ---------------- General helpers ---------------- */

  /** Replaces a missing value by `fallback`. */
  function Nz<T>(value: Option<T>, fallback: T): (r: T)
    ensures value.Some? ==> r == value.value
    ensures value.None? ==> r == fallback
  {
    match value
    case Some(v) => v
    case None => fallback
  }

  function Abs(x: real): (r: real)
    ensures r >= 0.0 && (r == x || r == -x)
  {
    if x < 0.0 then -x else x
  }

  function Min(x: real, y: real): real { if x <= y then x else y }

  function Max(x: real, y: real): real { if x >= y then x else y }

  function Sq(x: real): (r: real)
    ensures r >= 0.0
  {
    x * x
  }

  /** A quotient of a part by a positive whole lies in [0, 1]. */
  lemma QuotientInUnit(a: real, b: real)
    ensures 0.0 <= a <= b && b > 0.0 ==> 0.0 <= a / b <= 1.0
  {
    if 0.0 <= a <= b && b > 0.0 {
      assert a / b * b == a;
    }
  }

  lemma SelfQuotient(a: real)
    ensures a != 0.0 ==> a / a == 1.0
  {
  }

  /** Maps `value` linearly from [min, max] onto [0, 1], clamping it into
      [min, max] first; a missing value or an empty range gives `fallback`. */
  function Normalize(value: Option<real>, min: real, max: real, fallback: real): (r: real)
    ensures value.None? || max == min ==> r == fallback
    ensures value.Some? && min < max ==> 0.0 <= r <= 1.0
    ensures value.Some? && min > max ==> r == 1.0
  {
    if value.None? then fallback
    else if max == min then fallback
    else
      var clamped := Min(Max(value.value, min), max);
      QuotientInUnit(clamped - min, max - min);
      assert min > max ==> clamped - min == max - min;
      SelfQuotient(max - min);
      (clamped - min) / (max - min)
  }

  /** Inside the range, Normalize is undone by the affine map back. */
  lemma NormalizeInverse(v: real, min: real, max: real, fallback: real)
    requires min < max && min <= v <= max
    ensures min + Normalize(Some(v), min, max, fallback) * (max - min) == v
  {
  }

  /** Inside a non-empty range Normalize is monotone, and it sends the
      bounds (and everything beyond them) to 0 and 1. */
  lemma NormalizeMonotone(v: real, w: real, min: real, max: real, fallback: real)
    requires min < max && v <= w
    ensures Normalize(Some(v), min, max, fallback) <= Normalize(Some(w), min, max, fallback)
    ensures v <= min ==> Normalize(Some(v), min, max, fallback) == 0.0
    ensures w >= max ==> Normalize(Some(w), min, max, fallback) == 1.0
  {
    var cv := Min(Max(v, min), max);
    var cw := Min(Max(w, min), max);
    QuotientMonotone(cv - min, cw - min, max - min);
    SelfQuotient(max - min);
  }

  /** Dividing by a positive number keeps the order. */
  lemma QuotientMonotone(a: real, b: real, d: real)
    requires a <= b && d > 0.0
    ensures a / d <= b / d
  {
    var x, y := a / d, b / d;
    assert x * d == a && y * d == b;
    assert (y - x) * d == b - a;
  }

  /* ---------------- Tonality ---------------- */

  /** Circular distance between two pitch classes on the ring of 12.
      The arguments are not reduced modulo 12. */
  function KeyDistance(a: Option<int>, b: Option<int>): (r: Option<int>)
    ensures r.None? <==> a.None? || b.None?
    ensures r.Some? && 0 <= a.value < 12 && 0 <= b.value < 12 ==>
              0 <= r.value <= 6 && (r.value == 0 <==> a.value == b.value)
  {
    if a.None? || b.None? then None
    else
      var diff := if a.value >= b.value then a.value - b.value else b.value - a.value;
      Some(if diff <= 12 - diff then diff else 12 - diff)
  }

  /** The distance does not depend on the order of its arguments. */
  lemma KeyDistanceSymmetric(a: Option<int>, b: Option<int>)
    ensures KeyDistance(a, b) == KeyDistance(b, a)
  {
  }

  /** Sample distances: a semitone across the octave boundary, a tritone;
      and, since keys are not reduced modulo 12, an out-of-range key can
      give a distance outside [0, 6]. */
  lemma KeyDistanceSamples()
    ensures KeyDistance(Some(0), Some(11)) == Some(1)
    ensures KeyDistance(Some(0), Some(6)) == Some(6)
    ensures KeyDistance(Some(-1), Some(11)) == Some(0)
    ensures KeyDistance(Some(0), Some(13)) == Some(-1)
  {
  }

  /** Pitch class of an integer, on the ring of 12. */
  function PitchClass(k: int): (r: int)
    ensures 0 <= r < 12
  {
    k % 12
  }

  /** For pitch classes in 0..11, KeyDistance is the length of the shorter
      way round the ring: the smaller of the two modular differences. */
  lemma KeyDistanceIsRingDistance(a: int, b: int)
    requires 0 <= a < 12 && 0 <= b < 12
    ensures KeyDistance(Some(a), Some(b)) ==
              Some(if PitchClass(a - b) <= PitchClass(b - a) then PitchClass(a - b) else PitchClass(b - a))
  {
    if a >= b {
      assert PitchClass(a - b) == a - b;
      assert a == b || PitchClass(b - a) == 12 - (a - b);
    } else {
      assert PitchClass(b - a) == b - a;
      assert PitchClass(a - b) == 12 - (b - a);
    }
  }

  /** The tonal score table: lower is more compatible. */
  function KeyCompatibilityScore(baseKey: Option<int>, baseMode: Option<int>,
                                 candKey: Option<int>, candMode: Option<int>): (r: real)
    ensures r in {0.0, 0.3, 0.5, 0.7, 0.8, 1.0, 1.5}
    ensures 0.0 <= r <= 1.5
    ensures baseKey.None? || candKey.None? ==> r == 1.0
    ensures r == 0.0 <==> KeyDistance(baseKey, candKey) == Some(0) && baseMode == candMode
    ensures r == 0.3 <==> KeyDistance(baseKey, candKey) == Some(0) && baseMode != candMode
  {
    var dist := KeyDistance(baseKey, candKey);
    if dist.None? then 1.0
    else
      var sameMode := baseMode == candMode;
      if dist.value == 0 && sameMode then 0.0
      else if dist.value == 0 && !sameMode then 0.3
      else if dist.value == 1 && sameMode then 0.5
      else if dist.value == 2 && sameMode then 0.7
      else if dist.value == 5 || dist.value == 7 then (if sameMode then 0.8 else 1.0)
      else 1.5
  }

  /** The table in full, for keys known and in 0..11: distance 7 cannot
      occur, and distance 1 or 2 across a mode change falls to 1.5. */
  lemma KeyCompatibilityTable(bk: int, bm: Option<int>, ck: int, cm: Option<int>)
    requires 0 <= bk < 12 && 0 <= ck < 12
    ensures var d := KeyDistance(Some(bk), Some(ck)).value;
            var r := KeyCompatibilityScore(Some(bk), bm, Some(ck), cm);
            d != 7 &&
            (d == 1 && bm == cm ==> r == 0.5) &&
            (d == 2 && bm == cm ==> r == 0.7) &&
            (d == 5 ==> r == (if bm == cm then 0.8 else 1.0)) &&
            ((d == 1 || d == 2) && bm != cm ==> r == 1.5) &&
            (d in {3, 4, 6} ==> r == 1.5)
  {
  }

  /** Tonal compatibility does not depend on which track is the base. */
  lemma {:induction false} KeyCompatibilitySymmetric(bk: Option<int>, bm: Option<int>,
                                                     ck: Option<int>, cm: Option<int>)
    ensures KeyCompatibilityScore(bk, bm, ck, cm) == KeyCompatibilityScore(ck, cm, bk, bm)
  {
    KeyDistanceSymmetric(bk, ck);
  }

  /* ---------------- Popularity ---------------- */

  /** The first present value of a list, or None when all are missing. */
  function FirstPresent(s: seq<Option<real>>): (r: Option<real>)
    ensures r.None? <==> forall i :: 0 <= i < |s| ==> s[i].None?
    ensures r.Some? ==> exists i :: 0 <= i < |s| && s[i] == r &&
                                    forall j :: 0 <= j < i ==> s[j].None?
  {
    if s == [] then None
    else if s[0].Some? then s[0]
    else
      var r := FirstPresent(s[1..]);
      assert r.Some? ==> exists i :: 0 <= i < |s[1..]| && s[1..][i] == r &&
                                     forall j :: 0 <= j < i ==> s[1..][j].None?;
      assert r.Some? ==> exists i :: 1 <= i < |s| && s[i] == r &&
                                     forall j :: 0 <= j < i ==> s[j].None? by {
        if r.Some? {
          var i :| 0 <= i < |s[1..]| && s[1..][i] == r && forall j :: 0 <= j < i ==> s[1..][j].None?;
          assert s[i + 1] == r;
          assert forall j :: 0 <= j < i + 1 ==> s[j].None? by {
            forall j | 0 <= j < i + 1 ensures s[j].None? {
              if j > 0 { assert s[j] == s[1..][j - 1]; }
            }
          }
        }
      }
      r
  }

  /** The popularity columns of a row, in order of priority. */
  function PopularityColumns(row: Row): seq<Option<real>> {
    [row.trackPopularity, row.trackSpotifyPopularity]
  }

  /** Popularity of a row: the first popularity column present; the two
      columns are never averaged. */
  method ExtractPopularityFromRow(row: Row) returns (p: Option<real>)
    ensures p == FirstPresent(PopularityColumns(row))
    ensures p == if row.trackPopularity.Some? then row.trackPopularity else row.trackSpotifyPopularity
  {
    var candidates := PopularityColumns(row);
    var i := 0;
    while i < |candidates|
      invariant 0 <= i <= |candidates|
      invariant forall j :: 0 <= j < i ==> candidates[j].None?
      invariant FirstPresent(candidates) == FirstPresent(candidates[i..])
    {
      if candidates[i].Some? {
        return candidates[i];
      }
      i := i + 1;
    }
    return None;
  }

  /** The usable popularity of a feature record: missing (null, undefined
      or NaN) stays missing, a number is kept. */
  function GetPopularity(features: Features): (p: Option<real>)
    ensures p.None? <==> features.popularity.None?
    ensures p.Some? ==> p.value == features.popularity.value
  {
    features.popularity
  }

  /* ---------------- Row to features ---------------- */

  lemma FirstPresentOfColumns(row: Row)
    ensures FirstPresent(PopularityColumns(row)) ==
              if row.trackPopularity.Some? then row.trackPopularity else row.trackSpotifyPopularity
  {
    assert PopularityColumns(row)[1..] == [row.trackSpotifyPopularity];
    assert PopularityColumns(row)[1..][1..] == [];
  }

  function MapDbRowToFeatures(row: Row): (f: Features)
    ensures f.popularity == if row.trackPopularity.Some? then row.trackPopularity
                            else row.trackSpotifyPopularity
    ensures f.tempo == row.trackTempo && f.energy == row.trackEnergy
    ensures f.danceability == row.trackDanceability && f.valence == row.trackValence
    ensures f.loudness == row.trackLoudness && f.key == row.trackKey && f.mode == row.trackMode
    ensures f.artistId == row.artistId
  {
    FirstPresentOfColumns(row);
    Features(
      row.trackTempo, row.trackEnergy, row.trackDanceability, row.trackValence,
      row.trackLoudness, row.trackKey, row.trackMode,
      FirstPresent(PopularityColumns(row)),
      row.artistId)
  }

  /* ---------------- Similarity ---------------- */

  const TempoWeight: real := 2.5
  const EnergyWeight: real := 1.8
  const DanceWeight: real := 1.8
  const ValenceWeight: real := 1.0
  const LoudWeight: real := 0.6
  const KeyWeight: real := 2.2
  const PopWeight: real := 0.5
  const SameArtistWeight: real := 0.7

  /** Neutral value of energy, danceability and valence when the base lacks it. */
  const NeutralUnit: real := 0.5
  /** Neutral loudness in dB when the base lacks it. */
  const NeutralLoudness: real := -10.0

  /** Tempo term: squared tempo gap in units of 8 BPM, 0 when either
      tempo is missing. */
  function TempoTerm(base: Features, cand: Features): (r: real)
    ensures r >= 0.0
    ensures base.tempo.None? || cand.tempo.None? ==> r == 0.0
    ensures base.tempo == cand.tempo ==> r == 0.0
  {
    if base.tempo.Some? && cand.tempo.Some? then
      var tempoDiff := Abs(cand.tempo.value - base.tempo.value);
      Sq(tempoDiff / 8.0)
    else
      0.0
  }

  /** Candidate value minus base value, where a missing base value becomes
      `neutral` and a missing candidate value becomes the base's value. */
  function DefaultedDiff(base: Option<real>, cand: Option<real>, neutral: real): (d: real)
    ensures cand.None? ==> d == 0.0
    ensures base.Some? && cand.Some? ==> d == cand.value - base.value
    ensures base.None? && cand.Some? ==> d == cand.value - neutral
  {
    var b := Nz(base, neutral);
    var c := Nz(cand, b);
    c - b
  }

  /** The popularity penalty: 1 for an unpopular candidate, 0 for a top one,
      0.5 when its popularity is unknown. */
  function PopularityPenalty(cand: Features): (r: real)
    ensures 0.0 <= r <= 1.0
    ensures cand.popularity.None? ==> r == 0.5
    ensures cand.popularity.Some? && cand.popularity.value >= 100.0 ==> r == 0.0
    ensures cand.popularity.Some? && cand.popularity.value <= 0.0 ==> r == 1.0
    ensures cand.popularity.Some? && 0.0 <= cand.popularity.value <= 100.0 ==>
              r == 1.0 - cand.popularity.value / 100.0
  {
    var popCand := GetPopularity(cand);
    var popCandNorm := Normalize(popCand, 0.0, 100.0, 0.5);
    1.0 - popCandNorm
  }

  /** JavaScript truthiness of an artist id: present and not empty. */
  predicate Truthy(id: Option<string>) {
    id.Some? && id.value != ""
  }

  /** 0.3 when both artist ids are truthy and equal, else 0. */
  function SameArtistPenalty(base: Features, cand: Features): (r: real)
    ensures r == 0.3 <==> Truthy(base.artistId) && Truthy(cand.artistId) && base.artistId == cand.artistId
    ensures r == 0.0 || r == 0.3
  {
    var sameArtist := Truthy(base.artistId) && Truthy(cand.artistId) && base.artistId == cand.artistId;
    if sameArtist then 0.3 else 0.0
  }

  function EnergyTerm(base: Features, cand: Features): real {
    Sq(DefaultedDiff(base.energy, cand.energy, NeutralUnit))
  }

  function DanceTerm(base: Features, cand: Features): real {
    Sq(DefaultedDiff(base.danceability, cand.danceability, NeutralUnit))
  }

  function ValenceTerm(base: Features, cand: Features): real {
    Sq(DefaultedDiff(base.valence, cand.valence, NeutralUnit))
  }

  function LoudTerm(base: Features, cand: Features): real {
    Sq(DefaultedDiff(base.loudness, cand.loudness, NeutralLoudness) / 12.0)
  }

  function KeyTerm(base: Features, cand: Features): real {
    KeyCompatibilityScore(base.key, base.mode, cand.key, cand.mode)
  }

  /** The similarity score of a candidate against the base: a weighted sum
      of nonnegative terms, so never negative. Lower is better. */
  function ComputeSimilarityScore(base: Features, cand: Features): (score: real)
    ensures score >= 0.0
    ensures score >= KeyWeight * KeyTerm(base, cand) + PopWeight * PopularityPenalty(cand)
                     + SameArtistWeight * SameArtistPenalty(base, cand)
  {
    TempoWeight * TempoTerm(base, cand) +
    EnergyWeight * EnergyTerm(base, cand) +
    DanceWeight * DanceTerm(base, cand) +
    ValenceWeight * ValenceTerm(base, cand) +
    LoudWeight * LoudTerm(base, cand) +
    KeyWeight * KeyTerm(base, cand) +
    PopWeight * PopularityPenalty(cand) +
    SameArtistWeight * SameArtistPenalty(base, cand)
  }

  /** A candidate lacking tempo, energy, danceability, valence and loudness
      is scored on tonality, popularity and artist alone. */
  lemma MissingCandidateFeatures(base: Features, cand: Features)
    requires cand.tempo.None? && cand.energy.None? && cand.danceability.None?
    requires cand.valence.None? && cand.loudness.None?
    ensures ComputeSimilarityScore(base, cand) ==
              KeyWeight * KeyTerm(base, cand) + PopWeight * PopularityPenalty(cand)
              + SameArtistWeight * SameArtistPenalty(base, cand)
  {
  }

  /** A base without tempo disables the tempo term for every candidate. */
  lemma BaseWithoutTempo(base: Features, cand: Features)
    requires base.tempo.None?
    ensures ComputeSimilarityScore(base, cand) ==
              EnergyWeight * EnergyTerm(base, cand) + DanceWeight * DanceTerm(base, cand)
              + ValenceWeight * ValenceTerm(base, cand) + LoudWeight * LoudTerm(base, cand)
              + KeyWeight * KeyTerm(base, cand) + PopWeight * PopularityPenalty(cand)
              + SameArtistWeight * SameArtistPenalty(base, cand)
  {
  }

  /** Unknown popularity costs exactly 0.5 * 0.5 = 0.25; the same-artist
      penalty adds exactly 0.7 * 0.3 = 0.21 or nothing. */
  lemma PopularityAndArtistContributions(base: Features, cand: Features)
    ensures cand.popularity.None? ==> PopWeight * PopularityPenalty(cand) == 0.25
    ensures SameArtistWeight * SameArtistPenalty(base, cand) ==
              if Truthy(base.artistId) && base.artistId == cand.artistId then 0.21 else 0.0
  {
  }

  /** A track scored against itself: every audio and tonal term vanishes
      (tonality costs 1.0 only when the key is unknown); popularity and
      the same-artist penalty remain. */
  lemma SelfScore(f: Features)
    ensures ComputeSimilarityScore(f, f) ==
              (if f.key.None? then KeyWeight * 1.0 else 0.0)
              + PopWeight * PopularityPenalty(f)
              + (if Truthy(f.artistId) then SameArtistWeight * 0.3 else 0.0)
  {
    if f.key.Some? {
      assert KeyDistance(f.key, f.key) == Some(0);
    }
  }

  /** A near-identical candidate (2 BPM apart, same energy, key and mode)
      scores strictly below one that is 40 BPM apart, far lower in energy,
      a tritone away and in the other mode. */
  lemma CloseCandidateScoresLower(base: Features, near: Features, far: Features)
    requires base == Features(Some(120.0), Some(0.8), None, None, None, Some(0), Some(1), None, None)
    requires near == Features(Some(122.0), Some(0.8), None, None, None, Some(0), Some(1), None, None)
    requires far == Features(Some(160.0), Some(0.1), None, None, None, Some(6), Some(0), None, None)
    ensures ComputeSimilarityScore(base, near) < ComputeSimilarityScore(base, far)
  {
    assert TempoTerm(base, near) == 0.0625;
    assert EnergyTerm(base, near) == 0.0;
    assert DanceTerm(base, near) == 0.0 && ValenceTerm(base, near) == 0.0;
    assert LoudTerm(base, near) == 0.0;
    assert KeyTerm(base, near) == 0.0;
    assert PopularityPenalty(near) == 0.5 && SameArtistPenalty(base, near) == 0.0;
    assert TempoTerm(base, far) == 25.0;
  }
}
