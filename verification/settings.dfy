/** The controller settings word (`Settings`, a `bitflags!` type over u32
    in packet/src/lib.rs), as the management API defines it: setting k is
    bit k of the word, from Powered at bit 0 to Wideband Speech at bit 17.

    The declaration gives each flag its bit POSITION as its value, and
    `bitflags!` uses the value as the flag's MASK. The as-written reading
    below follows the declaration; the corrected reading uses 1 << k. */
module Settings {
  import opened Bytes
  import opened Wire
  import opened Fields

  datatype Setting =
    | Powered | Connectable | FastConnectable | Discoverable | Bondable
    | LinkLevelSecurity | SecureSimplePairing | BasicRateEnhancedDataRate
    | HighSpeed | LowEnergy | Advertising | SecureConnections | DebugKeys
    | Privacy | ControllerConfiguration | StaticAddress | PhyConfiguration
    | WidebandSpeech

  const COUNT: nat := 18

  /** The settings in declaration order. */
  const ALL: seq<Setting> :=
    [Powered, Connectable, FastConnectable, Discoverable, Bondable,
     LinkLevelSecurity, SecureSimplePairing, BasicRateEnhancedDataRate,
     HighSpeed, LowEnergy, Advertising, SecureConnections, DebugKeys,
     Privacy, ControllerConfiguration, StaticAddress, PhyConfiguration,
     WidebandSpeech]

  /** The constant each flag is declared with: its bit position. */
  function Position(s: Setting): (k: nat)
    ensures k < COUNT && ALL[k] == s
  {
    match s
    case Powered => 0
    case Connectable => 1
    case FastConnectable => 2
    case Discoverable => 3
    case Bondable => 4
    case LinkLevelSecurity => 5
    case SecureSimplePairing => 6
    case BasicRateEnhancedDataRate => 7
    case HighSpeed => 8
    case LowEnergy => 9
    case Advertising => 10
    case SecureConnections => 11
    case DebugKeys => 12
    case Privacy => 13
    case ControllerConfiguration => 14
    case StaticAddress => 15
    case PhyConfiguration => 16
    case WidebandSpeech => 17
  }

  /** `bits.contains(mask)`: every bit of the mask is set in the word. */
  predicate Contains(bits: u32, mask: u32)
  {
    forall k | 0 <= k < 32 :: BitSet(mask, k) ==> BitSet(bits, k)
  }

  // ---------------------------------------------------------------------
  // As written: the position is the mask
  // ---------------------------------------------------------------------

  function MaskAsWritten(s: Setting): u32
  {
    Position(s)
  }

  /** The settings a word reports, read through the declared masks. */
  function SettingsOfAsWritten(bits: u32): set<Setting>
  {
    set s: Setting | Contains(bits, MaskAsWritten(s))
  }

  /** Powered is the empty flag, so every word reports it, even the word in
      which nothing is set; and a controller that is only powered (bit 0)
      reports Connectable, because Connectable's mask is 1. */
  lemma SettingsAsWrittenMisread()
    ensures Powered in SettingsOfAsWritten(0)
    ensures Connectable in SettingsOfAsWritten(1)
    ensures SettingsOfAsWritten(1) != SettingsOf(1)
  {
    forall k | 0 <= k < 32 ensures !BitSet(0, k) {
      ZeroHasNoBits(k);
    }
    assert Contains(1, MaskAsWritten(Connectable));
    assert !BitSet(1, Position(Connectable));
    assert Connectable !in SettingsOf(1);
  }

  // ---------------------------------------------------------------------
  // Corrected: setting k is the mask 1 << k
  // ---------------------------------------------------------------------

  function Mask(s: Setting): (m: u32)
    ensures forall k | 0 <= k < 32 :: BitSet(m, k) <==> k == Position(s)
  {
    Pow2Bounded(Position(s));
    forall k | 0 <= k < 32 ensures BitSet(Pow2(Position(s)), k) <==> k == Position(s) {
      BitOfPow2(Position(s), k);
    }
    Pow2(Position(s))
  }

  /** With the corrected masks, `contains` asks exactly for the setting's
      bit. */
  lemma ContainsIffBitSet(bits: u32, s: Setting)
    ensures Contains(bits, Mask(s)) <==> BitSet(bits, Position(s))
  {
  }

  /** The settings a word reports. */
  function SettingsOf(bits: u32): (r: set<Setting>)
    ensures forall s: Setting :: s in r <==> Contains(bits, Mask(s))
  {
    forall s: Setting ensures Contains(bits, Mask(s)) <==> BitSet(bits, Position(s)) {
      ContainsIffBitSet(bits, s);
    }
    set s: Setting | BitSet(bits, Position(s))
  }

  /** The word of a set of settings: bit k is set iff ALL[k] is a member. */
  function SettingsWord(ss: set<Setting>): (w: u32)
  {
    var f := Flags(ss, ALL);
    WordBounded(f);
    Pow2Monotone(COUNT, 31);
    Pow2Bounded(31);
    Word(f)
  }

  /** The membership flags of the settings of `order`, in that order. */
  function Flags(ss: set<Setting>, order: seq<Setting>): (f: seq<bool>)
    ensures |f| == |order|
    ensures forall i | 0 <= i < |f| :: f[i] <==> order[i] in ss
  {
    if order == [] then [] else [order[0] in ss] + Flags(ss, order[1..])
  }

  /** Little-endian bits to a number. */
  function Word(f: seq<bool>): nat
  {
    if f == [] then 0 else (if f[0] then 1 else 0) + 2 * Word(f[1..])
  }

  lemma {:induction false} WordBounded(f: seq<bool>)
    ensures Word(f) < Pow2(|f|)
  {
    if f != [] {
      WordBounded(f[1..]);
    }
  }

  lemma {:induction false} BitOfWord(f: seq<bool>, k: nat)
    ensures BitSet(Word(f), k) <==> k < |f| && f[k]
  {
    if f == [] {
      ZeroHasNoBits(k);
    } else if k == 0 {
      WordHalf(f);
    } else {
      BitSetHalf(Word(f), k - 1);
      WordHalf(f);
      BitOfWord(f[1..], k - 1);
    }
  }

  /** The low bit of a word is its first flag, the rest is the tail's word. */
  lemma WordHalf(f: seq<bool>)
    requires f != []
    ensures Word(f) / 2 == Word(f[1..])
    ensures Word(f) % 2 == 1 <==> f[0]
  {
    var b := if f[0] then 1 else 0;
    assert Word(f) == 2 * Word(f[1..]) + b;
    DivUnique(Word(f), 2, Word(f[1..]), b);
  }

  lemma ZeroHasNoBits(k: nat)
    ensures !BitSet(0, k)
  {
    DivUnique(0, Pow2(k), 0, 0);
  }

  /** Reading back the word of a set gives the set. */
  lemma SettingsRoundTrip(ss: set<Setting>)
    ensures SettingsOf(SettingsWord(ss)) == ss
  {
    var f := Flags(ss, ALL);
    forall s: Setting ensures s in SettingsOf(SettingsWord(ss)) <==> s in ss {
      BitOfWord(f, Position(s));
      ContainsIffBitSet(SettingsWord(ss), s);
    }
  }

  /** The word travels as a little-endian u32 and reads back as the same
      settings. */
  lemma SettingsWireRoundTrip(ss: set<Setting>, t: bytes)
    ensures DecodeU32(EncodeU32(SettingsWord(ss)) + t).Ok?
    ensures SettingsOf(DecodeU32(EncodeU32(SettingsWord(ss)) + t).value) == ss
    ensures DecodeU32(EncodeU32(SettingsWord(ss)) + t).rest == t
  {
    U32RoundTrip(SettingsWord(ss), t);
    SettingsRoundTrip(ss);
  }

  // ---------------------------------------------------------------------
  // Arithmetic on bits
  // ---------------------------------------------------------------------

  lemma Pow2Bounded(k: nat)
    requires k < 32
    ensures Pow2(k) < 0x1_0000_0000
  {
    Pow2Monotone(k, 31);
    Pow2Of31();
  }

  lemma Pow2Of31()
    ensures Pow2(31) == 0x8000_0000
  {
    assert Pow2(8) == 0x100;
    assert Pow2(16) == 0x1_0000;
    assert Pow2(24) == 0x100_0000;
  }

  lemma {:induction false} Pow2Monotone(a: nat, b: nat)
    requires a <= b
    ensures Pow2(a) <= Pow2(b)
    decreases b - a
  {
    if a < b {
      Pow2Monotone(a, b - 1);
    }
  }

  lemma DivDiv(v: nat, a: nat, b: nat)
    requires a > 0 && b > 0
    ensures v / (a * b) == (v / a) / b
  {
    var q := v / a;
    Recombine(v, a, b, q, v % a, q / b, q % b);
    DivUnique(v, a * b, q / b, a * (q % b) + v % a);
  }

  lemma Recombine(v: nat, a: nat, b: nat, q: nat, r: nat, q1: nat, r1: nat)
    requires a > 0 && b > 0 && v == a * q + r && r < a && q == b * q1 + r1 && r1 < b
    ensures v == (a * b) * q1 + (a * r1 + r) && a * r1 + r < a * b
  {
    assert a * q == a * (b * q1) + a * r1;
    assert a * (b * q1) == (a * b) * q1;
    assert a * r1 <= a * (b - 1);
  }

  /** Bit k + 1 of v is bit k of v / 2. */
  lemma BitSetHalf(v: nat, k: nat)
    ensures BitSet(v, k + 1) <==> BitSet(v / 2, k)
  {
    assert Pow2(k + 1) == 2 * Pow2(k);
    DivDiv(v, 2, Pow2(k));
  }

  lemma {:induction false} BitOfPow2(p: nat, k: nat)
    ensures BitSet(Pow2(p), k) <==> k == p
    decreases p + k
  {
    if k == 0 {
      Pow2Half(p);
    } else {
      BitSetHalf(Pow2(p), k - 1);
      Pow2Half(p);
      if p == 0 {
        ZeroHasNoBits(k - 1);
      } else {
        BitOfPow2(p - 1, k - 1);
      }
    }
  }

  /** Halving a power of two. */
  lemma Pow2Half(p: nat)
    ensures p == 0 ==> Pow2(p) / 2 == 0 && Pow2(p) % 2 == 1
    ensures p > 0 ==> Pow2(p) / 2 == Pow2(p - 1) && Pow2(p) % 2 == 0
  {
    if p == 0 {
      DivUnique(1, 2, 0, 1);
    } else {
      DivUnique(Pow2(p), 2, Pow2(p - 1), 0);
    }
  }
}
