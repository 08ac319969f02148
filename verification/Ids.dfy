/** Identifiers of server/src/utils/id_generator.h. */
module Ids {
  /** `std::to_string` of an unsigned integer. */
  function Decimal(n: nat): (s: string)
    ensures |s| > 0 && forall i :: 0 <= i < |s| ==> '0' <= s[i] <= '9'
    ensures s[0] == '0' ==> n == 0
  {
    var digit := ['0' + (n % 10) as char];
    if n < 10 then digit else Decimal(n / 10) + digit
  }

  /** Reads a decimal numeral back. */
  function Parse(s: string): int {
    if |s| == 0 then 0 else 10 * Parse(s[..|s| - 1]) + (s[|s| - 1] as int - '0' as int)
  }

  lemma {:induction false} DecimalRoundTrip(n: nat)
    ensures Parse(Decimal(n)) == n
  {
    var s := Decimal(n);
    if n < 10 {
      assert s[..0] == [];
    } else {
      DecimalRoundTrip(n / 10);
      assert s[..|s| - 1] == Decimal(n / 10);
    }
  }

  function GenerateP2PConvId(sender: nat, receiver: nat): string {
    if sender <= receiver then Decimal(sender) + "_" + Decimal(receiver)
    else Decimal(receiver) + "_" + Decimal(sender)
  }

  /** The key reads as the smaller id, an underscore and the larger id. */
  lemma ConvIdReads(a: nat, b: nat)
    ensures var s := GenerateP2PConvId(a, b);
            exists i :: && 0 <= i < |s| && s[i] == '_'
                        && Parse(s[..i]) == (if a <= b then a else b) && Parse(s[i + 1..]) == (if a <= b then b else a)
  {
    var lo, hi := if a <= b then a else b, if a <= b then b else a;
    var s, i := GenerateP2PConvId(a, b), |Decimal(lo)|;
    DecimalRoundTrip(lo);
    DecimalRoundTrip(hi);
    assert s[..i] == Decimal(lo) && s[i + 1..] == Decimal(hi) && s[i] == '_';
  }

  /** A text is cut at its first separator in one way only. */
  lemma SplitIsUnique(a: string, b: string, c: string, d: string)
    requires '_' !in a && '_' !in c && a + "_" + b == c + "_" + d
    ensures a == c && b == d
  {
    var s, t := a + "_" + b, c + "_" + d;
    assert s[|a|] == '_' && t[|c|] == '_';
    assert forall i :: 0 <= i < |a| ==> s[i] == a[i] && s[i] != '_';
    assert forall i :: 0 <= i < |c| ==> t[i] == c[i] && t[i] != '_';
    assert a == s[..|a|] && c == t[..|c|] && b == s[|a| + 1..] && d == t[|c| + 1..];
  }

  /** Two pairs of users share a conversation exactly when they are the same pair in either order. */
  lemma ConvIdIdentifiesPair(a: nat, b: nat, c: nat, d: nat)
    ensures GenerateP2PConvId(a, b) == GenerateP2PConvId(c, d) <==> (a == c && b == d) || (a == d && b == c)
  {
    if GenerateP2PConvId(a, b) == GenerateP2PConvId(c, d) {
      var lo, hi := if a <= b then a else b, if a <= b then b else a;
      var lo', hi' := if c <= d then c else d, if c <= d then d else c;
      SplitIsUnique(Decimal(lo), Decimal(hi), Decimal(lo'), Decimal(hi'));
      DecimalRoundTrip(lo);
      DecimalRoundTrip(hi);
      DecimalRoundTrip(lo');
      DecimalRoundTrip(hi');
    }
  }

  // ---------- generated ids ----------

  const EPOCH: bv64 := 1704067200000
  const LOW_22: bv64 := 0x3F_FFFF
  const LOW_42: bv64 := 0x3FF_FFFF_FFFF

  /** Milliseconds since the epoch of the ids; an earlier clock counts as the epoch. */
  function Offset(now: bv64): bv64 {
    if now < EPOCH then 0 else now - EPOCH
  }

  /** The offset shifted left by 22 in 64 bits, or-ed with a draw of 22 bits. */
  function GenerateRandId(now: bv64, random: bv64): bv64
    requires random <= LOW_22
  {
    (Offset(now) << 22) | random
  }

  /** An id decodes to its random part and to its millisecond modulo 2^42, about 139 years. */
  lemma RandIdDecodes(now: bv64, random: bv64)
    requires random <= LOW_22
    ensures GenerateRandId(now, random) & LOW_22 == random
    ensures GenerateRandId(now, random) >> 22 == Offset(now) & LOW_42
  {
    PartsAreDisjoint(Offset(now), random);
  }

  /** The shifted value has no bit among the low 22, and the draw none above them. */
  lemma PartsAreDisjoint(x: bv64, y: bv64)
    requires y <= LOW_22
    ensures ((x << 22) | y) & LOW_22 == y && ((x << 22) | y) >> 22 == x & LOW_42
  {
  }

  /** Only the low 42 bits of the shifted part survive. */
  lemma ShiftKeepsLow(x: bv64, x': bv64)
    requires x & LOW_42 == x' & LOW_42
    ensures x << 22 == x' << 22
  {
  }

  /** The higher part decides while it is not cut off. */
  lemma HigherPartDecides(x: bv64, y: bv64, x': bv64, y': bv64)
    requires y <= LOW_22 && y' <= LOW_22 && x < x' <= LOW_42
    ensures (x << 22) | y < (x' << 22) | y'
  {
  }

  /** Different parts give different ids. */
  lemma RandIdsUnique(now: bv64, random: bv64, now': bv64, random': bv64)
    requires random <= LOW_22 && random' <= LOW_22
    requires GenerateRandId(now, random) == GenerateRandId(now', random')
    ensures Offset(now) & LOW_42 == Offset(now') & LOW_42 && random == random'
  {
    RandIdDecodes(now, random);
    RandIdDecodes(now', random');
  }

  /** Equal parts give equal ids, also after the offset has left its 42 bits. */
  lemma RandIdsRepeat(now: bv64, random: bv64, now': bv64)
    requires random <= LOW_22 && Offset(now) & LOW_42 == Offset(now') & LOW_42
    ensures GenerateRandId(now, random) == GenerateRandId(now', random)
  {
    ShiftKeepsLow(Offset(now), Offset(now'));
  }

  /** Ids are equal exactly when both parts are. */
  lemma RandIdsEqualIff(now: bv64, random: bv64, now': bv64, random': bv64)
    requires random <= LOW_22 && random' <= LOW_22
    ensures GenerateRandId(now, random) == GenerateRandId(now', random') <==>
              Offset(now) & LOW_42 == Offset(now') & LOW_42 && random == random'
  {
    if random == random' && Offset(now) & LOW_42 == Offset(now') & LOW_42 {
      RandIdsRepeat(now, random, now');
    } else if GenerateRandId(now, random) == GenerateRandId(now', random') {
      RandIdsUnique(now, random, now', random');
    }
  }

  /** Ids are ordered by millisecond while the offset fits 42 bits. */
  lemma RandIdsOrdered(now: bv64, random: bv64, now': bv64, random': bv64)
    requires random <= LOW_22 && random' <= LOW_22 && Offset(now) < Offset(now') <= LOW_42
    ensures GenerateRandId(now, random) < GenerateRandId(now', random')
  {
    HigherPartDecides(Offset(now), random, Offset(now'), random');
  }
}
