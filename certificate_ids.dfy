/** Certificate identifiers `{prefix}-{year}-{count+1:03d}` (app.py lines 250 and 374). */
module CertificateIds {
  import opened Wrappers
  import opened Strings
  import opened Decimal

  const BirthPrefix := "BC"
  const MarriagePrefix := "MC"

  /** The sequence part: the number of certificates already issued plus one, zero-padded to three digits. */
  function SequenceText(count: nat): (r: string)
    ensures |r| == Max(3, |NatToDecimal(count + 1)|)
    ensures EndsWithDigitsOf(r, count + 1)
    ensures AllDigits(r)
  {
    ZeroPad(count + 1, 3)
  }

  /** The identifier allocated for the next certificate when `count` certificates of the category exist. */
  function FormatId(prefix: string, year: nat, count: nat): string {
    prefix + "-" + NatToDecimal(year) + "-" + SequenceText(count)
  }

  /** `f"BC-{year}-{count+1:03d}"`. */
  function BirthId(year: nat, count: nat): string {
    FormatId(BirthPrefix, year, count)
  }

  /** `f"MC-{year}-{count+1:03d}"`. */
  function MarriageId(year: nat, count: nat): string {
    FormatId(MarriagePrefix, year, count)
  }

  /** The sequence number written after the last `-` of an identifier, if that text is all digits. */
  function SequenceNumber(id: string): Option<nat> {
    match AfterLast(id, '-')
    case None => None
    case Some(tail) => ParseDecimal(tail)
  }

  /** The shape every birth identifier has: `BC-` followed by digits and dashes only. */
  predicate IsBirthId(id: string) {
    && StartsWith(id, "BC-")
    && forall i :: 3 <= i < |id| ==> IsDigit(id[i]) || id[i] == '-'
  }

  /** The allocated identifier carries the sequence number `count + 1`, whatever the prefix and year. */
  lemma SequenceNumberOfId(prefix: string, year: nat, count: nat)
    ensures SequenceNumber(FormatId(prefix, year, count)) == Some(count + 1)
  {
    var seqText := SequenceText(count);
    assert '-' !in seqText by {
      forall i | 0 <= i < |seqText| ensures seqText[i] != '-' {
        assert IsDigit(seqText[i]);
      }
    }
    AfterLastOfSuffix(prefix + "-" + NatToDecimal(year), '-', seqText);
    assert FormatId(prefix, year, count) == prefix + "-" + NatToDecimal(year) + ['-'] + seqText;
    ZeroPadRoundTrip(count + 1, 3);
  }

  /** Different counts never give the same identifier, for any prefixes and years. */
  lemma DistinctCountsDistinctIds(p1: string, y1: nat, c1: nat, p2: string, y2: nat, c2: nat)
    requires c1 != c2
    ensures FormatId(p1, y1, c1) != FormatId(p2, y2, c2)
  {
    SequenceNumberOfId(p1, y1, c1);
    SequenceNumberOfId(p2, y2, c2);
  }

  predicate DigitsOrDashes(t: string) {
    forall i :: 0 <= i < |t| ==> IsDigit(t[i]) || t[i] == '-'
  }

  lemma DigitsDashDigits(y: string, sq: string)
    requires AllDigits(y) && AllDigits(sq)
    ensures DigitsOrDashes(y + "-" + sq)
  {
    var t := y + "-" + sq;
    forall i | 0 <= i < |t| ensures IsDigit(t[i]) || t[i] == '-' {
      if i < |y| {
        assert t[i] == y[i];
      } else if |y| < i {
        assert t[i] == sq[i - |y| - 1];
      }
    }
  }

  /** Every allocated birth identifier has the birth shape. */
  lemma BirthIdShape(year: nat, count: nat)
    ensures IsBirthId(BirthId(year, count))
  {
    var t := NatToDecimal(year) + "-" + SequenceText(count);
    DigitsDashDigits(NatToDecimal(year), SequenceText(count));
    var id := BirthId(year, count);
    assert id == "BC-" + t;
    forall i | 3 <= i < |id| ensures IsDigit(id[i]) || id[i] == '-' {
      assert id[i] == t[i - 3];
    }
  }

  /** A marriage identifier never has the birth shape, so it never equals a birth identifier. */
  lemma MarriageIdIsNotBirthId(year: nat, count: nat)
    ensures !IsBirthId(MarriageId(year, count))
  {
    assert MarriageId(year, count)[0] == 'M';
  }

  /** No marriage identifier equals any birth identifier, whatever the years and counts. */
  lemma MarriageIdNeverBirthId(y1: nat, c1: nat, y2: nat, c2: nat)
    ensures MarriageId(y1, c1) != BirthId(y2, c2)
  {
    MarriageIdIsNotBirthId(y1, c1);
    BirthIdShape(y2, c2);
  }

  /** The seventh birth certificate of 2025. */
  lemma BirthIdExample()
    ensures BirthId(2025, 6) == "BC-2025-007"
  {
    assert NatToDecimal(2025) == "2025";
    assert SequenceText(6) == "007";
  }

  /** Past 999 the sequence grows to four digits instead of being cut to three. */
  lemma SequenceOverflowExample()
    ensures BirthId(2025, 999) == "BC-2025-1000"
  {
    assert NatToDecimal(2025) == "2025";
    assert SequenceText(999) == "1000";
  }

  /** The first marriage certificate of 2025. */
  lemma MarriageIdExample()
    ensures MarriageId(2025, 0) == "MC-2025-001"
  {
    assert NatToDecimal(2025) == "2025";
    assert SequenceText(0) == "001";
  }
}
