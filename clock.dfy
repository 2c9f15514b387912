/**
 Conversion of a token's `exp` claim to a date for the premature-renewal
 check. A `DateTime` is modelled as whole seconds relative to the Unix
 epoch; it can represent 0001-01-01T00:00:00 up to 9999-12-31T23:59:59.
 */
module Clock {
  import opened Entities

  const UnixEpoch: int := 0
  const MinDateTimeSeconds: int := -62135596800
  const MaxDateTimeSeconds: int := 253402300799
  const MinInt64: int := -0x8000_0000_0000_0000
  const MaxInt64: int := 0x7FFF_FFFF_FFFF_FFFF

  /** `long.Parse` succeeds only on values of a signed 64-bit integer. */
  predicate InInt64(n: int)
  {
    MinInt64 <= n <= MaxInt64
  }

  /** Adding `seconds` to the epoch stays inside the `DateTime` range. */
  predicate Representable(seconds: int)
  {
    MinDateTimeSeconds <= UnixEpoch + seconds <= MaxDateTimeSeconds
  }

  /**
   The conversion as written: the date `epoch + seconds` is computed and
   thrown away, so the epoch itself is returned. Computing it still throws
   (`None`) when the sum leaves the `DateTime` range.
   */
  function ConvertUnixTimeToDateTime(utcExpireDate: int): (r: Option<int>)
    ensures r.Some? <==> Representable(utcExpireDate)
    ensures r.Some? ==> r.value == UnixEpoch
  {
    var added := UnixEpoch + utcExpireDate;
    if MinDateTimeSeconds <= added <= MaxDateTimeSeconds then Some(UnixEpoch) else None
  }

  /** The conversion as intended: the epoch advanced by `seconds`. */
  function ConvertUnixTimeToDateTimeIntended(utcExpireDate: int): (r: Option<int>)
    ensures r.Some? <==> Representable(utcExpireDate)
    ensures r.Some? ==> r.value - UnixEpoch == utcExpireDate
  {
    var added := UnixEpoch + utcExpireDate;
    if MinDateTimeSeconds <= added <= MaxDateTimeSeconds then Some(added) else None
  }

  /** Which of the two conversions a controller uses. */
  datatype ExpiryRule = AsWritten | AsIntended

  function ExpireDate(rule: ExpiryRule, utcExpireDate: int): Option<int>
  {
    match rule
    case AsWritten => ConvertUnixTimeToDateTime(utcExpireDate)
    case AsIntended => ConvertUnixTimeToDateTimeIntended(utcExpireDate)
  }

  /** As written, the conversion cannot tell two representable claims apart. */
  lemma AsWrittenIgnoresClaim(a: int, b: int)
    requires Representable(a) && Representable(b)
    ensures ConvertUnixTimeToDateTime(a) == ConvertUnixTimeToDateTime(b)
  {
  }

  /** As intended, the conversion is injective on representable claims. */
  lemma IntendedIsInjective(a: int, b: int)
    requires Representable(a) && Representable(b)
    ensures ConvertUnixTimeToDateTimeIntended(a) == ConvertUnixTimeToDateTimeIntended(b) <==> a == b
  {
  }
}
