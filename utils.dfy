/**
 * The popup's display helpers: shortening a string with an ellipsis,
 * masking the local part of an email, and rendering a remaining or an
 * elapsed time. The clock reading is passed in as `now`.
 */
module Utils {
  import opened Strings

  function Min(a: int, b: int): int {
    if a <= b then a else b
  }

  /** The end index `str.slice(0, end)` stops at: a negative `end` counts from the back, and both sides are clamped. */
  function SliceEnd(len: nat, end: int): (e: nat)
    ensures e <= len
    ensures 0 <= end <= len ==> e == end
  {
    if end < 0 then (if len + end < 0 then 0 else len + end)
    else if end > len then len
    else end
  }

  /**
   * `truncate`: a string within the limit is returned as it is; a longer one
   * keeps its first `maxLength - 3` characters and gets `...`, so that with a
   * limit of at least 3 the result is exactly `maxLength` long. Below 3 the
   * ellipsis alone already exceeds the limit.
   */
  function Truncate(str: string, maxLength: int): (r: string)
    ensures |str| <= maxLength ==> r == str
    ensures |str| > maxLength ==> EndsWith(r, "...")
    ensures maxLength >= 3 && |str| > maxLength ==>
      |r| == maxLength && r[..maxLength - 3] == str[..maxLength - 3]
    ensures maxLength >= 3 ==> (r == str <==> |str| <= maxLength)
    ensures maxLength < 3 && |str| > maxLength ==> |r| > maxLength
  {
    if |str| <= maxLength then str
    else
      var r := str[..SliceEnd(|str|, maxLength - 3)] + "...";
      assert r[|r| - 3..] == "...";
      r
  }

  /**
   * `s.repeat(n)`: `n` copies of `s` one after another. The result starts
   * with `s` and repeats with period `|s|`, which with its length pins it down.
   */
  function Repeat(s: string, n: nat): (r: string)
    ensures |r| == n * |s|
    ensures n > 0 ==> r[..|s|] == s
    ensures forall k :: |s| <= k < |r| ==> r[k] == r[k - |s|]
  {
    if n == 0 then ""
    else
      var rest := Repeat(s, n - 1);
      var r := s + rest;
      assert r[..|s|] == s;
      assert forall k :: |s| <= k < |r| ==> r[k] == r[k - |s|] by {
        forall k | |s| <= k < |r| ensures r[k] == r[k - |s|] {
          assert r[k] == rest[k - |s|];
          if k - |s| < |s| {
            assert rest[..|s|] == s;
          }
        }
      }
      r
  }

  /** Repeating a single character gives nothing but that character. */
  lemma {:induction false} RepeatOne(c: char, n: nat, k: nat)
    requires k < |Repeat([c], n)|
    ensures Repeat([c], n)[k] == c
    decreases k
  {
    if k > 0 {
      RepeatOne(c, n, k - 1);
    } else {
      assert Repeat([c], n)[..1] == [c];
    }
  }

  /** The mask string as the source spells it: the UTF-8 bytes of a bullet read back as three Windows-1252 characters. */
  const MASK_AS_WRITTEN: string := "\U{00E2}\U{20AC}\U{00A2}"

  /** The bullet the mask evidently means. */
  const MASK: string := "\U{2022}"

  /**
   * The masked local part: one of at most two characters stays; a longer one
   * keeps its first and last characters with `min(length - 2, 5)` copies of
   * the mask between them.
   */
  function MaskLocal(local: string, mask: string): (r: string)
    ensures |local| <= 2 ==> r == local
    ensures |local| > 2 ==>
      && |r| == 2 + Min(|local| - 2, 5) * |mask|
      && r[0] == local[0] && r[|r| - 1] == local[|local| - 1]
      && r[1..|r| - 1] == Repeat(mask, Min(|local| - 2, 5))
  {
    if |local| > 2 then
      var r := [local[0]] + Repeat(mask, Min(|local| - 2, 5)) + [local[|local| - 1]];
      assert r[1..|r| - 1] == Repeat(mask, Min(|local| - 2, 5));
      r
    else
      local
  }

  /**
   * `maskEmail` with the mask string as a parameter: split at `@`; without
   * a non-empty second piece the email is returned as it is, otherwise the
   * masked first piece, `@`, and the second piece (anything after a second
   * `@` is dropped).
   */
  function MaskEmailWith(email: string, mask: string): string {
    var parts := Split(email, "@");
    if |parts| < 2 || parts[1] == "" then email
    else MaskLocal(parts[0], mask) + "@" + parts[1]
  }

  /** `maskEmail` as written. */
  function MaskEmailAsWritten(email: string): string {
    MaskEmailWith(email, MASK_AS_WRITTEN)
  }

  /** `maskEmail` with the bullet it evidently means. */
  function MaskEmail(email: string): string {
    MaskEmailWith(email, MASK)
  }

  /** Without an `@` there is nothing to mask. */
  lemma MaskEmailWithoutAt(email: string, mask: string)
    requires '@' !in email
    ensures MaskEmailWith(email, mask) == email
  {
    NoCharOccurs(email, '@');
    SplitFromNoOccurrence(email, "@", "");
  }

  /**
   * For `local@domain` followed by nothing or by another `@...`: an empty
   * domain leaves the email as it is; otherwise the result is the masked
   * local part, `@` and the domain.
   */
  lemma {:induction false} MaskEmailCases(local: string, domain: string, tail: string, mask: string)
    requires '@' !in local && '@' !in domain
    requires tail == "" || tail[0] == '@'
    ensures domain == "" ==> MaskEmailWith(local + "@" + domain + tail, mask) == local + "@" + domain + tail
    ensures domain != "" ==> MaskEmailWith(local + "@" + domain + tail, mask) == MaskLocal(local, mask) + "@" + domain
  {
    var email := local + "@" + domain + tail;
    assert email == local + ['@'] + (domain + tail);
    SplitFromAtChar(local, '@', domain + tail, "");
    assert "" + local == local;
    if tail == "" {
      assert domain + tail == domain;
      NoCharOccurs(domain, '@');
      SplitFromNoOccurrence(domain, "@", "");
    } else {
      assert domain + tail == domain + ['@'] + tail[1..];
      SplitFromAtChar(domain, '@', tail[1..], "");
      assert "" + domain == domain;
    }
  }

  /**
   * Finding: as written, the mask is three characters, so a masked email
   * with a local part of three to seven characters comes out longer than the
   * email itself, with a euro sign after its first character.
   */
  lemma MaskAsWrittenGarbles(local: string, domain: string)
    requires '@' !in local && '@' !in domain && domain != "" && 2 < |local| <= 7
    ensures var r := MaskEmailAsWritten(local + "@" + domain);
      && |r| == |local + "@" + domain| + 2 * (|local| - 2)
      && r[1] == '\U{00E2}' && r[2] == '\U{20AC}' && r[3] == '\U{00A2}'
  {
    MaskEmailCases(local, domain, "", MASK_AS_WRITTEN);
    assert local + "@" + domain + "" == local + "@" + domain;
    var m := MaskLocal(local, MASK_AS_WRITTEN);
    var rep := Repeat(MASK_AS_WRITTEN, |local| - 2);
    assert m[1..|m| - 1] == rep;
    assert rep[..3] == MASK_AS_WRITTEN;
    assert m[1] == rep[0] && m[2] == rep[1] && m[3] == rep[2];
  }

  /**
   * With the bullet, masking `local@domain` keeps the domain, the first and
   * last characters of the local part and, for a local part of at most
   * seven characters, the length; every character in between is a bullet.
   */
  lemma MaskEmailKeepsShape(local: string, domain: string)
    requires '@' !in local && '@' !in domain && domain != "" && |local| > 2
    ensures var r := MaskEmail(local + "@" + domain);
      && r == MaskLocal(local, MASK) + "@" + domain
      && r[0] == local[0]
      && (|local| <= 7 ==> |r| == |local + "@" + domain|)
      && (forall k :: 1 <= k < |MaskLocal(local, MASK)| - 1 ==> r[k] == '\U{2022}')
  {
    MaskEmailCases(local, domain, "", MASK);
    assert local + "@" + domain + "" == local + "@" + domain;
    var m := MaskLocal(local, MASK);
    forall k | 1 <= k < |m| - 1 ensures m[k] == '\U{2022}' {
      assert m[k] == m[1..|m| - 1][k - 1];
      RepeatOne('\U{2022}', Min(|local| - 2, 5), k - 1);
    }
  }

  const MS_PER_MINUTE: nat := 1000 * 60
  const MS_PER_HOUR: nat := 1000 * 60 * 60

  /**
   * `formatTimeRemaining`: `expired` once the expiry is reached; otherwise
   * the whole hours and the whole minutes left over, the hours only when
   * there is at least one.
   */
  function FormatTimeRemaining(expiresAt: int, now: int): (r: string)
    ensures r == "expired" <==> expiresAt - now <= 0
  {
    var remaining := expiresAt - now;
    if remaining <= 0 then "expired"
    else
      var hours := remaining / MS_PER_HOUR;
      var minutes := (remaining % MS_PER_HOUR) / MS_PER_MINUTE;
      var r := if hours > 0 then Decimal(hours) + "h " + Decimal(minutes) + "m" else Decimal(minutes) + "m";
      assert r[|r| - 1] == 'm';
      r
  }

  /**
   * What the remaining-time text means: it names `h` hours and `m < 60`
   * minutes, and the time left is at least `h:m` and less than one minute
   * more; the hours are shown exactly when there is at least one.
   */
  lemma TimeRemainingMeaning(expiresAt: int, now: int) returns (h: nat, m: nat)
    requires expiresAt - now > 0
    ensures m < 60
    ensures h * MS_PER_HOUR + m * MS_PER_MINUTE <= expiresAt - now < h * MS_PER_HOUR + (m + 1) * MS_PER_MINUTE
    ensures h > 0 ==> FormatTimeRemaining(expiresAt, now) == Decimal(h) + "h " + Decimal(m) + "m"
    ensures h == 0 ==> FormatTimeRemaining(expiresAt, now) == Decimal(m) + "m"
  {
    var remaining := expiresAt - now;
    h := remaining / MS_PER_HOUR;
    var rest := remaining % MS_PER_HOUR;
    m := rest / MS_PER_MINUTE;
    assert remaining == h * MS_PER_HOUR + rest;
    assert rest == m * MS_PER_MINUTE + rest % MS_PER_MINUTE;
  }

  /** A relative time: a text, or the date in the user's locale (not modelled) for anything a week old or more. */
  datatype RelativeTime = Text(s: string) | LocaleDate(timestamp: int)

  const MS_PER_DAY: nat := 1000 * 60 * 60 * 24
  const MS_PER_WEEK: nat := 1000 * 60 * 60 * 24 * 7

  /** Flooring twice is flooring once by the product. */
  lemma FloorTwice(d: int, b: nat, c: nat)
    requires b > 0 && c > 0
    ensures (d / b) / c == d / (b * c)
  {
    var q, r1 := d / b, d % b;
    var q2, r2 := q / c, q % c;
    MulAssocDist(b, c, q2, r2);
    assert d == b * q + r1;
    assert d == (b * c) * q2 + (b * r2 + r1);
    MulMono(b, r2, c - 1);
    assert b * (c - 1) == b * c - b;
    DivUnique(d, b * c, q2, b * r2 + r1);
  }

  lemma MulAssocDist(b: int, c: int, q: int, r: int)
    ensures b * (c * q + r) == (b * c) * q + b * r
  {
  }

  lemma MulMono(n: nat, x: int, y: int)
    requires x <= y
    ensures n * x <= n * y
  {
  }

  /** The quotient is the only `q` with `d == n * q + r` and `0 <= r < n`. */
  lemma DivUnique(d: int, n: nat, q: int, r: int)
    requires n > 0 && d == n * q + r && 0 <= r < n
    ensures d / n == q
  {
    var q0, r0 := d / n, d % n;
    assert d == n * q0 + r0;
    if q0 < q {
      MulMono(n, q0 + 1, q);
      MulAssocDist(n, 1, q0, 1);
    } else if q0 > q {
      MulMono(n, q + 1, q0);
      MulAssocDist(n, 1, q, 1);
    }
  }

  /**
   * `formatRelativeTime`: the elapsed time is floored to seconds, minutes,
   * hours and days in turn, and the first unit that stays under its bound is
   * shown; a week or more gives the locale date.
   */
  function FormatRelativeTime(timestamp: int, now: int): (r: RelativeTime)
    ensures r == Text("just now") <==> now - timestamp < MS_PER_MINUTE
    ensures MS_PER_MINUTE <= now - timestamp < MS_PER_HOUR ==>
      r == Text(Decimal((now - timestamp) / MS_PER_MINUTE) + "m ago")
    ensures MS_PER_HOUR <= now - timestamp < MS_PER_DAY ==>
      r == Text(Decimal((now - timestamp) / MS_PER_HOUR) + "h ago")
    ensures MS_PER_DAY <= now - timestamp < MS_PER_WEEK ==>
      r == Text(Decimal((now - timestamp) / MS_PER_DAY) + "d ago")
    ensures r == LocaleDate(timestamp) <==> now - timestamp >= MS_PER_WEEK
  {
    var diff := now - timestamp;
    var seconds := diff / 1000;
    var minutes := seconds / 60;
    var hours := minutes / 60;
    var days := hours / 24;
    FloorTwice(diff, 1000, 60);
    FloorTwice(diff, 1000 * 60, 60);
    FloorTwice(diff, 1000 * 60 * 60, 24);
    if seconds < 60 then Text("just now")
    else if minutes < 60 then
      var s := Decimal(minutes) + "m ago";
      assert s[|s| - 1] == 'o';
      Text(s)
    else if hours < 24 then
      var s := Decimal(hours) + "h ago";
      assert s[|s| - 1] == 'o';
      Text(s)
    else if days < 7 then
      var s := Decimal(days) + "d ago";
      assert s[|s| - 1] == 'o';
      Text(s)
    else LocaleDate(timestamp)
  }
}
