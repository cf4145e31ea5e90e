/** `getReadableTimeDiff`: the age of a post as "N unit(s) ago". Instants are
    integer milliseconds; `now` is the clock reading the source takes with
    `new Date()`. */
module Age {
  import opened Text

  /** `Math.round(ms / 1000)`: the nearest whole number of seconds, halves rounded up. */
  function RoundedSeconds(ms: int): (e: int)
    ensures 1000 * e - 500 <= ms < 1000 * e + 500
  {
    (ms + 500) / 1000
  }

  /** JavaScript's `a % b` for a positive divisor: the remainder has the sign of the dividend. */
  function JsRem(a: int, b: int): (r: int)
    requires b > 0
    ensures -b < r < b
    ensures a >= 0 ==> 0 <= r
    ensures a <= 0 ==> r <= 0
    ensures (a - r) % b == 0
  {
    if a >= 0 then
      assert a - a % b == (a / b) * b;
      MultipleRem(a / b, b);
      a % b
    else
      assert a + (-a) % b == (-((-a) / b)) * b;
      MultipleRem(-((-a) / b), b);
      -((-a) % b)
  }

  /** A multiple of `b` leaves no remainder. */
  lemma MultipleRem(q: int, b: int)
    requires b > 0
    ensures (q * b) % b == 0
  {
    var r := (q * b) % b;
    var k := (q * b) / b;
    assert 0 <= r < b;
    assert q * b == b * k + r;
    var m := q - k;
    assert b * m == q * b - b * k;
    assert b * m == r;
    if m >= 1 {
      assert b * m == b * (m - 1) + b;
      NonNegativeProduct(b, m - 1);
    } else if m <= -1 {
      assert b * m == b * (m + 1) - b;
      NonNegativeProduct(b, -(m + 1));
    }
  }

  lemma NonNegativeProduct(x: int, y: int)
    requires x >= 0 && y >= 0
    ensures x * y >= 0
  {
  }

  /** The phrase for a post stamped `time`, read at `now`; `None` where the
      source falls off its if-chain and returns `undefined`. The branches test
      whole hours, then total minutes, then the seconds remainder. */
  function ReadableTimeDiff(time: int, now: int): (r: Option<string>)
    ensures var e := RoundedSeconds(now - time);
      && (e >= 3600 ==> r == Some(NatToString(e / 3600) + if e < 7200 then " hour ago" else " hours ago"))
      && (60 <= e < 3600 ==> r == Some(NatToString(e / 60) + if e < 120 then " minute ago" else " minutes ago"))
      && (1 <= e < 60 ==> r == Some(NatToString(e) + if e == 1 then " second ago" else " seconds ago"))
      && (e <= 0 <==> r == None)
  {
    var timeDiff := RoundedSeconds(now - time);
    var seconds := JsRem(timeDiff, 60);
    // Math.floor on a positive divisor is Dafny's division
    var minutes := timeDiff / 60;
    var hours := timeDiff / 60 / 60;
    if hours == 1 then Some(NatToString(hours) + " hour ago")
    else if hours > 1 then Some(NatToString(hours) + " hours ago")
    else if minutes == 1 then Some(NatToString(minutes) + " minute ago")
    else if minutes > 1 then Some(NatToString(minutes) + " minutes ago")
    else if seconds == 1 then Some(NatToString(seconds) + " second ago")
    else if seconds > 1 then Some(NatToString(seconds) + " seconds ago")
    else None
  }
}
