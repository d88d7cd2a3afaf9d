/** The two pure helpers of src/components/auth/NicknameForm.tsx: the
    nickname mask shown in the leaderboard dialog and the clock rendering
    of a total time. */
module NicknameForm {
  import opened Wrappers
  import opened Strings

  /** `n` asterisks: `'*'.repeat(n)`. */
  function Stars(n: nat): (r: string)
    ensures |r| == n
  {
    seq(n, _ => '*')
  }

  /** `maskNickname`: a nickname of at most three characters (the empty one
      included) is shown as it is; a longer one keeps its first two and its
      last character and hides the rest behind asterisks. */
  function MaskNickname(nickname: string): string {
    if |nickname| <= 3 then nickname
    else nickname[..2] + Stars(|nickname| - 3) + [nickname[|nickname| - 1]]
  }

  /** What a mask reveals: a short nickname whole; of a longer one the
      length, the first two characters and the last one, with an asterisk at
      every other position. */
  lemma MaskShape(nickname: string)
    ensures var m := MaskNickname(nickname);
      && |m| == |nickname|
      && (|nickname| <= 3 ==> m == nickname)
      && (|nickname| > 3 ==>
            && m[..2] == nickname[..2]
            && m[|m| - 1] == nickname[|nickname| - 1]
            && forall i :: 2 <= i < |m| - 1 ==> m[i] == '*')
  {
  }

  /** Two nicknames look the same exactly when they are equal and short, or
      both long, of the same length, and agree on their first two and last
      characters. */
  lemma SameMask(a: string, b: string)
    ensures MaskNickname(a) == MaskNickname(b) <==>
      if |a| <= 3 || |b| <= 3 then a == b
      else |a| == |b| && a[..2] == b[..2] && a[|a| - 1] == b[|b| - 1]
  {
    MaskShape(a);
    MaskShape(b);
    var ma, mb := MaskNickname(a), MaskNickname(b);
    if |a| > 3 && |b| > 3 && |a| == |b| && a[..2] == b[..2] && a[|a| - 1] == b[|b| - 1] {
      assert forall i :: 0 <= i < |ma| ==> ma[i] == mb[i] by {
        forall i | 0 <= i < |ma|
          ensures ma[i] == mb[i]
        {
          if i < 2 {
            assert ma[i] == ma[..2][i] && mb[i] == mb[..2][i];
          }
        }
      }
    }
  }

  /** Masking a mask changes nothing more. */
  lemma MaskIdempotent(nickname: string)
    ensures MaskNickname(MaskNickname(nickname)) == MaskNickname(nickname)
  {
    var m := MaskNickname(nickname);
    MaskShape(nickname);
    MaskShape(m);
    var mm := MaskNickname(m);
    if |nickname| > 3 {
      forall i | 0 <= i < |m|
        ensures mm[i] == m[i]
      {
        if i < 2 {
          assert mm[i] == mm[..2][i] && m[i] == m[..2][i];
        }
      }
    }
  }

  /** JavaScript's `%` on integers: the remainder takes the sign of the
      dividend. */
  function JsRem(a: int, b: int): (r: int)
    requires b > 0
    ensures a >= 0 ==> 0 <= r < b
    ensures a < 0 ==> -b < r <= 0
  {
    if a >= 0 then a % b else -((-a) % b)
  }

  /** `m:ss`: the minutes, a colon and the seconds padded to two digits. */
  function Clock(minutes: int, seconds: int): string {
    IntToString(minutes) + ":" + PadStart2(IntToString(seconds))
  }

  /** `formatTime`: `0:00` for no time (`undefined`) and for zero;
      otherwise the whole minutes and the whole seconds left over.
      `Math.floor` of a quotient by a positive constant is Dafny's `/`. */
  function FormatTime(ms: Option<int>): string {
    if ms.None? || ms.value == 0 then "0:00"
    else Clock(ms.value / 60000, JsRem(ms.value, 60000) / 1000)
  }

  /** For a time that is not negative the minutes and seconds are the
      whole seconds of the time split into sixty-second minutes, and the
      seconds stay below sixty. */
  lemma FormatTimeMeaning(ms: nat)
    ensures exists m: nat, s: nat :: s < 60 && m * 60 + s == ms / 1000 && FormatTime(Some(ms)) == Clock(m, s)
  {
    var m, s := ms / 60000, ms % 60000 / 1000;
    SplitSeconds(ms);
    if ms == 0 {
      assert Clock(0, 0) == "0:00";
    }
    assert FormatTime(Some(ms)) == Clock(m, s);
  }

  /** Whole minutes and the seconds left over account for every whole
      second of a time. */
  lemma SplitSeconds(ms: nat)
    ensures ms % 60000 / 1000 < 60
    ensures (ms / 60000) * 60 + ms % 60000 / 1000 == ms / 1000
  {
    var m, r := ms / 60000, ms % 60000;
    assert ms == 60000 * m + r;
    var s, t := r / 1000, r % 1000;
    assert r == 1000 * s + t;
    assert ms == 1000 * (60 * m + s) + t;
  }

  /** The minutes and seconds read back from a clock. */
  function ParseClock(c: string): Option<(nat, nat)> {
    var parts := Split(c, ':');
    if |parts| == 2 && Digits(parts[0]) && Digits(parts[1])
    then Some((ParseDigits(parts[0]), ParseDigits(parts[1])))
    else None
  }

  predicate Digits(s: string) {
    forall i :: 0 <= i < |s| ==> '0' <= s[i] <= '9'
  }

  /** Reading a clock of a time that is not negative gives back its minutes
      and seconds: the rendering loses nothing. */
  lemma ClockRoundTrip(m: nat, s: nat)
    requires s < 60
    ensures ParseClock(Clock(m, s)) == Some((m, s))
  {
    var a, b := NatToString(m), PadStart2(NatToString(s));
    ClockParts(m, s);
    assert Digits(a) && ParseDigits(a) == m by {
      ParseNatToString(m);
    }
    assert Digits(b) && ParseDigits(b) == s by {
      ParsePadded(NatToString(s));
      ParseNatToString(s);
    }
  }

  /** A clock splits at its colon into the minutes and the padded seconds. */
  lemma ClockParts(m: nat, s: nat)
    ensures Split(Clock(m, s), ':') == [NatToString(m), PadStart2(NatToString(s))]
  {
    var a, b := NatToString(m), PadStart2(NatToString(s));
    assert [a, b][1..] == [b];
    assert Clock(m, s) == Join([a, b], ':');
    assert ':' !in a && ':' !in b by {
      assert Digits(a) && Digits(b);
    }
    SplitJoin([a, b], ':');
  }

  /** A leading zero does not change the value of a string of digits. */
  lemma ParsePadded(s: string)
    requires Digits(s) && |s| >= 1
    ensures Digits(PadStart2(s)) && ParseDigits(PadStart2(s)) == ParseDigits(s)
  {
    if |s| == 1 {
      var p := PadStart2(s);
      assert p == ['0', s[0]];
      assert p[..1] == "0" && s[..0] == "";
    }
  }
}
