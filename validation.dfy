/** Input validation of the review form (backend/application.py:174-183): Python's `int()`
    on the rating field with every failure turned into 0, `.strip()` on the comment, and the
    range check that rejects both. */
module Validation {
  import opened Wrappers
  import opened Text

  predicate IsDigit(c: char) {
    '0' <= c <= '9'
  }

  /** The digits of a base-10 Python integer literal: ASCII digits, with single underscores
      allowed between two digits (`1_000`). */
  predicate IsDigitPart(d: string) {
    d != [] && IsDigit(d[0]) && IsDigit(d[|d| - 1]) &&
    (forall i :: 0 <= i < |d| ==> IsDigit(d[i]) || d[i] == '_') &&
    (forall i :: 0 <= i < |d| - 1 ==> d[i] == '_' ==> d[i + 1] != '_')
  }

  /** The value of a digit part, underscores skipped. */
  function DigitsValue(d: string): nat
    decreases |d|
  {
    if d == [] then 0
    else if IsDigit(d[|d| - 1]) then 10 * DigitsValue(d[..|d| - 1]) + (d[|d| - 1] as int - '0' as int)
    else DigitsValue(d[..|d| - 1])
  }

  /** The number of digits of a digit part, underscores not counted. */
  function DigitCount(d: string): (n: nat)
    ensures n <= |d|
    decreases |d|
  {
    if d == [] then 0 else (if IsDigit(d[|d| - 1]) then 1 else 0) + DigitCount(d[..|d| - 1])
  }

  /** CPython's default `sys.get_int_max_str_digits()`: a decimal string with more digits than
      this makes `int()` raise ValueError. */
  const INT_MAX_STR_DIGITS: nat := 4300

  /** U+001C..U+001F. strip() removes them, but int() skips only ASCII `\t\n\v\f\r` and space
      (and non-ASCII whitespace), and they are neither digits, signs nor underscores, so any
      occurrence of one makes int() fail. */
  predicate IsInfoSeparator(c: char) {
    '\U{1C}' <= c <= '\U{1F}'
  }

  predicate HasInfoSeparator(s: string) {
    exists i :: 0 <= i < |s| && IsInfoSeparator(s[i])
  }

  /** An acceptable digit part: well formed and within the digit limit. */
  predicate IsNumeral(d: string) {
    IsDigitPart(d) && DigitCount(d) <= INT_MAX_STR_DIGITS
  }

  /** Python's `int(s)` for a string: surrounding whitespace is ignored, one optional sign,
      then a digit part of at most 4300 digits; anything else raises ValueError, which is None here. */
  function ParseInt(s: string): Option<int> {
    if HasInfoSeparator(s) then None
    else
      var t := Trim(s);
      if t != [] && (t[0] == '+' || t[0] == '-') then
        var n: int := DigitsValue(t[1..]);
        if IsNumeral(t[1..]) then Some(if t[0] == '-' then -n else n)
        else None
      else if IsNumeral(t) then Some(DigitsValue(t))
      else None
  }

  /** The rating as backend/application.py:177-180 computes it: `int(rating_raw)`, with the
      TypeError of a missing field and the ValueError of a malformed one both becoming 0. */
  function RatingOf(raw: Option<string>): int {
    match raw
    case None => 0
    case Some(s) => ParseInt(s).GetOr(0)
  }

  datatype ReviewInput = Accepted(rating: int, text: string) | Rejected

  /** The check at backend/application.py:182 on the parsed rating and the stripped comment.
      Every rejection is the same value: the page shows one message for all of them. */
  function ValidateReview(ratingRaw: Option<string>, textRaw: Option<string>): (v: ReviewInput)
    ensures v.Accepted? ==> 1 <= v.rating <= 5 && v.text != [] && NoOuterSpace(v.text)
  {
    var rating := RatingOf(ratingRaw);
    var text := Trim(textRaw.GetOr(""));
    if rating < 1 || rating > 5 || text == [] then Rejected else Accepted(rating, text)
  }

  /** A submission is accepted exactly when the rating field parses to an integer in 1..5 and the
      comment is not all whitespace; it then carries that integer and the stripped comment. */
  lemma AcceptedIff(ratingRaw: Option<string>, textRaw: Option<string>)
    ensures ValidateReview(ratingRaw, textRaw).Accepted? <==>
      (ratingRaw.Some? && ParseInt(ratingRaw.value).Some? && 1 <= ParseInt(ratingRaw.value).value <= 5
       && !AllSpace(textRaw.GetOr("")))
    ensures ValidateReview(ratingRaw, textRaw).Accepted? ==>
      Some(ValidateReview(ratingRaw, textRaw).rating) == ParseInt(ratingRaw.value) &&
      ValidateReview(ratingRaw, textRaw).text == Trim(textRaw.GetOr(""))
  {
    var text := Trim(textRaw.GetOr(""));
    TrimEmptyIff(textRaw.GetOr(""));
    var rating := RatingOf(ratingRaw);
    if ratingRaw.Some? && ParseInt(ratingRaw.value).Some? {
      assert rating == ParseInt(ratingRaw.value).value;
    } else {
      assert rating == 0;
    }
    assert ValidateReview(ratingRaw, textRaw) ==
      if rating < 1 || rating > 5 || text == [] then Rejected else Accepted(rating, text);
  }

  /** A missing or unparsable rating is rejected exactly like "0" and "6". */
  lemma UnparsableLikeOutOfRange(ratingRaw: Option<string>, textRaw: Option<string>)
    requires ratingRaw.None? || ParseInt(ratingRaw.value).None?
    ensures ValidateReview(ratingRaw, textRaw) == ValidateReview(Some("0"), textRaw)
    ensures ValidateReview(ratingRaw, textRaw) == ValidateReview(Some("6"), textRaw)
    ensures ValidateReview(ratingRaw, textRaw) == Rejected
  {
    ParseShowInt(0);
    ParseShowInt(6);
    assert ShowInt(0) == "0" && ShowInt(6) == "6";
    assert |ShowNat(Magnitude(0))| == 1 && |ShowNat(Magnitude(6))| == 1;
  }

  function DigitChar(k: nat): char
    requires k < 10
  {
    ('0' as int + k) as char
  }

  /** The decimal numeral of n, the form a browser submits for a typed number. */
  function ShowNat(n: nat): string
    decreases n
  {
    if n < 10 then [DigitChar(n)] else ShowNat(n / 10) + [DigitChar(n % 10)]
  }

  function ShowInt(n: int): string {
    if n < 0 then "-" + ShowNat(-n) else ShowNat(n)
  }

  lemma {:induction false} ShowNatDigits(n: nat)
    ensures IsDigitPart(ShowNat(n)) && DigitsValue(ShowNat(n)) == n
    ensures forall i :: 0 <= i < |ShowNat(n)| ==> IsDigit(ShowNat(n)[i])
    ensures DigitCount(ShowNat(n)) == |ShowNat(n)|
    decreases n
  {
    if n >= 10 {
      var p := ShowNat(n / 10);
      ShowNatDigits(n / 10);
      var d := p + [DigitChar(n % 10)];
      assert d[..|d| - 1] == p;
      assert forall i :: 0 <= i < |d| ==> IsDigit(d[i]) by {
        forall i | 0 <= i < |d| ensures IsDigit(d[i]) {
          if i < |p| { assert d[i] == p[i]; }
        }
      }
    }
  }

  function Magnitude(n: int): nat {
    if n < 0 then -n else n
  }

  /** Python's `int()` reads back the numeral of every integer of at most 4300 digits, and
      rejects every longer one. */
  lemma ParseShowInt(n: int)
    ensures ParseInt(ShowInt(n)) ==
      if |ShowNat(Magnitude(n))| <= INT_MAX_STR_DIGITS then Some(n) else None
  {
    if n < 0 {
      ShowNatDigits(-n);
      assert ShowInt(n) == "-" + ShowNat(-n);
      ParseNegative(ShowNat(-n), n);
    } else {
      ShowNatDigits(n);
      assert ShowInt(n) == ShowNat(n);
      ParseDigits(ShowNat(n));
    }
  }

  lemma NoSeparatorInDigits(d: string)
    requires forall i :: 0 <= i < |d| ==> IsDigit(d[i]) || d[i] == '_'
    ensures !HasInfoSeparator(d)
  {
    forall i | 0 <= i < |d| ensures !IsInfoSeparator(d[i]) {
      assert IsDigit(d[i]) || d[i] == '_';
    }
  }

  /** int() of a bare digit part is its value, unless it has more than 4300 digits. */
  lemma ParseDigits(digits: string)
    requires IsDigitPart(digits)
    ensures ParseInt(digits) ==
      if DigitCount(digits) <= INT_MAX_STR_DIGITS then Some(DigitsValue(digits)) else None
  {
    NoSeparatorInDigits(digits);
    assert IsDigit(digits[0]) && IsDigit(digits[|digits| - 1]);
    TrimOfTrimmed(digits);
  }

  /** int() of a minus sign followed by a digit part is the negated value, unless the part has
      more than 4300 digits. */
  lemma ParseNegative(digits: string, n: int)
    requires IsDigitPart(digits) && DigitsValue(digits) == -n
    ensures ParseInt("-" + digits) ==
      if DigitCount(digits) <= INT_MAX_STR_DIGITS then Some(n) else None
  {
    var s := "-" + digits;
    assert s[0] == '-' && s[1..] == digits && s[|s| - 1] == digits[|digits| - 1];
    assert IsDigit(digits[|digits| - 1]);
    assert !HasInfoSeparator(s) by {
      NoSeparatorInDigits(digits);
      forall i | 0 <= i < |s| ensures !IsInfoSeparator(s[i]) {
        if i > 0 { assert s[i] == digits[i - 1]; }
      }
    }
    TrimOfTrimmed(s);
    assert Trim(s) == s;
  }

  /** A separator control before the digits, which strip() would remove, makes int() fail:
      such a rating is rejected as 0. */
  lemma SeparatorPaddingRejected(textRaw: Option<string>)
    ensures RatingOf(Some("\U{1C}5")) == 0
    ensures ValidateReview(Some("\U{1C}5"), textRaw) == Rejected
  {
    assert IsInfoSeparator("\U{1C}5"[0]);
  }

  /** For a rating typed as a numeral, the submission is accepted exactly when the number is in
      1..5 and the comment is not blank; 0, 6 and every other integer are rejected. */
  lemma AcceptedNumeral(n: int, textRaw: Option<string>)
    ensures ValidateReview(Some(ShowInt(n)), textRaw).Accepted? <==> 1 <= n <= 5 && !AllSpace(textRaw.GetOr(""))
    ensures ValidateReview(Some(ShowInt(n)), textRaw).Accepted? ==> ValidateReview(Some(ShowInt(n)), textRaw).rating == n
  {
    ParseShowInt(n);
    AcceptedIff(Some(ShowInt(n)), textRaw);
    if 1 <= n <= 5 {
      assert ShowNat(Magnitude(n)) == [DigitChar(n)];
    }
  }
}
