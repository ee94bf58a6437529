/**
 * Interrupt priorities packed into the implemented bits, by priority group (section B1.5.4 of the
 * ARMv7-M Architecture Reference Manual). Masks with 2^n - 1 are remainders, shifts by n are products
 * with 2^n; the fields do not overlap, so their OR is a sum.
 */
module NvicPriority {
  function Pow2(n: nat): (p: nat)
    ensures p > 0
  {
    if n == 0 then 1 else 2 * Pow2(n - 1)
  }

  function PreemptBits(group: nat, prioBits: nat): nat {
    var g := group % 8;
    if 7 - g > prioBits then prioBits else 7 - g
  }

  function SubBits(group: nat, prioBits: nat): nat {
    var g := group % 8;
    if g + prioBits < 7 then 0 else g + prioBits - 7
  }

  function Encode(group: nat, prioBits: nat, preempt: nat, sub: nat): nat {
    var p, s := PreemptBits(group, prioBits), SubBits(group, prioBits);
    preempt % Pow2(p) * Pow2(s) + sub % Pow2(s)
  }

  function DecodedPreempt(priority: nat, group: nat, prioBits: nat): nat {
    priority / Pow2(SubBits(group, prioBits)) % Pow2(PreemptBits(group, prioBits))
  }

  function DecodedSub(priority: nat, group: nat, prioBits: nat): nat {
    priority % Pow2(SubBits(group, prioBits))
  }

  predicate InRange(group: nat, prioBits: nat, preempt: nat, sub: nat) {
    preempt < Pow2(PreemptBits(group, prioBits)) && sub < Pow2(SubBits(group, prioBits))
  }

  lemma NextRow(a: int, c: int, m: nat)
    requires a < c
    ensures a * m + m <= c * m
  {
    var k := c - a - 1;
    assert c * m == (a + 1 + k) * m == a * m + m + k * m;
  }

  /** Quotient and remainder are unique. */
  lemma DivMod(a: nat, b: nat, m: nat)
    requires b < m
    ensures (a * m + b) / m == a && (a * m + b) % m == b
  {
    var n := a * m + b;
    Euclid(n, m);
    if n / m < a {
      NextRow(n / m, a, m);
    } else if a < n / m {
      NextRow(a, n / m, m);
    }
  }

  lemma Euclid(n: nat, m: nat)
    requires m > 0
    ensures n == n / m * m + n % m && 0 <= n % m < m
  {
  }

  /** Two numbers in mixed radix compare like their digits. */
  lemma RadixOrder(a: nat, b: nat, c: nat, d: nat, m: nat)
    requires b < m && d < m
    ensures a * m + b < c * m + d <==> a < c || (a == c && b < d)
  {
    if a < c {
      NextRow(a, c, m);
    } else if a > c {
      NextRow(c, a, m);
    }
  }

  lemma {:induction false} Pow2Adds(a: nat, b: nat)
    ensures Pow2(a + b) == Pow2(a) * Pow2(b)
  {
    if a > 0 {
      Pow2Adds(a - 1, b);
    }
  }

  lemma EncodeInRange(group: nat, prioBits: nat, preempt: nat, sub: nat)
    requires InRange(group, prioBits, preempt, sub)
    ensures Encode(group, prioBits, preempt, sub) == preempt * Pow2(SubBits(group, prioBits)) + sub
  {
    Remains(preempt, Pow2(PreemptBits(group, prioBits)));
    Remains(sub, Pow2(SubBits(group, prioBits)));
  }

  lemma Remains(a: nat, m: nat)
    requires a < m
    ensures a % m == a
  {
  }

  /** The two fields share out the implemented bits. */
  lemma BitsAddUp(group: nat, prioBits: nat)
    requires 1 <= prioBits <= 8
    ensures PreemptBits(group, prioBits) + SubBits(group, prioBits) == prioBits
  {
  }

  lemma FieldSizes(group: nat, prioBits: nat)
    requires 1 <= prioBits <= 8
    ensures Pow2(PreemptBits(group, prioBits)) * Pow2(SubBits(group, prioBits)) == Pow2(prioBits)
  {
    BitsAddUp(group, prioBits);
    Pow2Adds(PreemptBits(group, prioBits), SubBits(group, prioBits));
  }

  lemma EncodeFits(group: nat, prioBits: nat, preempt: nat, sub: nat)
    requires 1 <= prioBits <= 8 && InRange(group, prioBits, preempt, sub)
    ensures Encode(group, prioBits, preempt, sub) < Pow2(prioBits)
  {
    EncodeInRange(group, prioBits, preempt, sub);
    FieldSizes(group, prioBits);
    FieldsFit(preempt, sub, Pow2(PreemptBits(group, prioBits)), Pow2(SubBits(group, prioBits)));
  }

  lemma FieldsFit(a: nat, b: nat, c: nat, m: nat)
    requires a < c && b < m
    ensures a * m + b < c * m
  {
    NextRow(a, c, m);
  }

  /** The encoding fits in the implemented bits, and decoding gives the pair back. */
  lemma EncodeRoundTrip(group: nat, prioBits: nat, preempt: nat, sub: nat)
    requires 1 <= prioBits <= 8 && InRange(group, prioBits, preempt, sub)
    ensures var e := Encode(group, prioBits, preempt, sub);
            && e < Pow2(prioBits)
            && DecodedPreempt(e, group, prioBits) == preempt && DecodedSub(e, group, prioBits) == sub
  {
    EncodeFits(group, prioBits, preempt, sub);
    EncodeInRange(group, prioBits, preempt, sub);
    DivMod(preempt, sub, Pow2(SubBits(group, prioBits)));
    Remains(preempt, Pow2(PreemptBits(group, prioBits)));
  }

  /** Splitting a number below p * s by s gives digits in range. */
  lemma Split(n: nat, p: nat, s: nat)
    requires p > 0 && s > 0 && n < p * s
    ensures n / s % p < p && n % s < s && n / s % p * s + n % s == n
  {
    Euclid(n, s);
    if n / s > p {
      NextRow(p, n / s, s);
    }
    assert n / s < p;
    Remains(n / s, p);
  }

  /**
   * NVIC_DecodePriority: of any priority that fits the implemented bits, the only pair in range that
   * encodes to it.
   */
  method Decode(priority: nat, group: nat, prioBits: nat) returns (preempt: nat, sub: nat)
    ensures 1 <= prioBits <= 8 && priority < Pow2(prioBits) ==>
              && InRange(group, prioBits, preempt, sub)
              && Encode(group, prioBits, preempt, sub) == priority
              && (forall p, s :: InRange(group, prioBits, p, s) && Encode(group, prioBits, p, s) == priority ==>
                    p == preempt && s == sub)
  {
    preempt := priority / Pow2(SubBits(group, prioBits)) % Pow2(PreemptBits(group, prioBits));
    sub := priority % Pow2(SubBits(group, prioBits));
    if 1 <= prioBits <= 8 && priority < Pow2(prioBits) {
      DecodeInRange(priority, group, prioBits);
      EncodeInRange(group, prioBits, preempt, sub);
      forall p, s | InRange(group, prioBits, p, s) && Encode(group, prioBits, p, s) == priority
        ensures p == preempt && s == sub
      {
        EncodeRoundTrip(group, prioBits, p, s);
      }
    }
  }

  lemma DecodeInRange(priority: nat, group: nat, prioBits: nat)
    requires 1 <= prioBits <= 8 && priority < Pow2(prioBits)
    ensures var preempt, sub := DecodedPreempt(priority, group, prioBits), DecodedSub(priority, group, prioBits);
            InRange(group, prioBits, preempt, sub) && preempt * Pow2(SubBits(group, prioBits)) + sub == priority
  {
    FieldSizes(group, prioBits);
    Split(priority, Pow2(PreemptBits(group, prioBits)), Pow2(SubBits(group, prioBits)));
  }

  lemma PowersOfTwo()
    ensures Pow2(0) == 1 && Pow2(1) == 2 && Pow2(2) == 4 && Pow2(3) == 8 && Pow2(4) == 16
    ensures Pow2(5) == 32 && Pow2(6) == 64 && Pow2(7) == 128 && Pow2(8) == 256
  {
  }

  lemma ByteParts(a: nat, b: nat, s: nat, shift: nat, m: nat)
    requires b < s && shift > 0 && m == s * shift
    ensures (a * s + b) * shift / m == a && (a * s + b) * shift % m == b * shift
  {
    FieldsFit(b, 0, s, shift);
    assert (a * s + b) * shift == a * s * shift + b * shift;
    assert a * s * shift == a * m;
    DivMod(a, b * shift, m);
  }

  lemma EncodeAt(group: nat, prioBits: nat, preempt: nat, sub: nat)
    requires group <= 7 && 1 <= prioBits <= 8 && group + prioBits >= 7
    ensures var s := Pow2(group + prioBits - 7);
            Encode(group, prioBits, preempt, sub) == preempt % Pow2(7 - group) * s + sub % s
  {
    assert PreemptBits(group, prioBits) == 7 - group && SubBits(group, prioBits) == group + prioBits - 7;
  }

  /**
   * Shifted into the top of the priority register, the preemption priority stands above bit `group` and
   * the subpriority below, each cut to the bits it has there: the binary point of the group.
   */
  lemma RegisterFields(group: nat, prioBits: nat, preempt: nat, sub: nat)
    requires group <= 7 && 1 <= prioBits <= 8 && group + prioBits >= 7
    ensures var byte := Encode(group, prioBits, preempt, sub) * Pow2(8 - prioBits);
            && byte / Pow2(group + 1) == preempt % Pow2(7 - group)
            && byte % Pow2(group + 1) == sub % Pow2(group + prioBits - 7) * Pow2(8 - prioBits)
  {
    var s, shift := Pow2(group + prioBits - 7), Pow2(8 - prioBits);
    EncodeAt(group, prioBits, preempt, sub);
    Pow2Adds(group + prioBits - 7, 8 - prioBits);
    assert group + prioBits - 7 + (8 - prioBits) == group + 1;
    Euclid(sub, s);
    ByteParts(preempt % Pow2(7 - group), sub % s, s, shift, Pow2(group + 1));
  }

  /** With the point below the implemented bits there is no subpriority, and all bits preempt. */
  lemma NoSubpriority(group: nat, prioBits: nat, preempt: nat, sub: nat)
    requires group <= 7 && 1 <= prioBits <= 8 && group + prioBits < 7
    ensures Encode(group, prioBits, preempt, sub) == preempt % Pow2(prioBits)
  {
    assert group % 8 == group;
    assert PreemptBits(group, prioBits) == prioBits && SubBits(group, prioBits) == 0;
    OnlyHighDigit(preempt % Pow2(prioBits), sub);
  }

  lemma OnlyHighDigit(a: nat, b: nat)
    ensures a * Pow2(0) + b % Pow2(0) == a
  {
    assert Pow2(0) == 1;
  }

  /** Only the low three bits of the group count. */
  lemma GroupIsMasked(group: nat, prioBits: nat, preempt: nat, sub: nat)
    ensures Encode(group, prioBits, preempt, sub) == Encode(group % 8, prioBits, preempt, sub)
  {
  }

  /** Encoded order is urgency order: preemption priority first, then subpriority. */
  lemma EncodeIsLexicographic(group: nat, prioBits: nat, a: nat, b: nat, c: nat, d: nat)
    requires InRange(group, prioBits, a, b) && InRange(group, prioBits, c, d)
    ensures Encode(group, prioBits, a, b) < Encode(group, prioBits, c, d) <==> a < c || (a == c && b < d)
  {
    EncodeInRange(group, prioBits, a, b);
    EncodeInRange(group, prioBits, c, d);
    RadixOrder(a, b, c, d, Pow2(SubBits(group, prioBits)));
  }
}
