// formatTime of the game component: a nonnegative count of milliseconds
// printed as M:SS.mmm (minutes unpadded, seconds padded to two digits and
// milliseconds to three, both with leading zeros).
//
// ParseTime reads such a string back; the two are proved inverse to each
// other on canonical strings (no leading zero in the minutes field).

module TimeFormat {

  datatype Option<T> = None | Some(value: T)

  predicate IsDigit(c: char)
  {
    '0' <= c <= '9'
  }

  predicate AllDigits(s: string)
  {
    forall k :: 0 <= k < |s| ==> IsDigit(s[k])
  }

  /** A decimal numeral as toString prints it: nonempty, no leading zero unless it is "0". */
  predicate Canonical(s: string)
  {
    |s| >= 1 && AllDigits(s) && (|s| == 1 || s[0] != '0')
  }

  function DigitChar(d: nat): (c: char)
    requires d < 10
    ensures IsDigit(c)
  {
    ('0' as int + d) as char
  }

  function DigitValue(c: char): (d: nat)
    requires IsDigit(c)
    ensures d < 10 && DigitChar(d) == c
  {
    c as int - '0' as int
  }

  function Pow10(w: nat): (p: nat)
    ensures p >= 1
  {
    if w == 0 then 1 else 10 * Pow10(w - 1)
  }

  /** Number.prototype.toString for a nonnegative integer: its decimal digits. */
  function NatToString(n: nat): (r: string)
    ensures Canonical(r)
  {
    if n < 10 then [DigitChar(n)] else NatToString(n / 10) + [DigitChar(n % 10)]
  }

  /** String.prototype.padStart: prefix fill characters until s is width long. */
  function PadStart(s: string, width: nat, fill: char): (r: string)
    ensures |s| >= width ==> r == s
    ensures |s| < width ==> |r| == width && r[width - |s|..] == s &&
                            forall k :: 0 <= k < width - |s| ==> r[k] == fill
  {
    if |s| >= width then s else seq(width - |s|, _ => fill) + s
  }

  /** The value of a string of decimal digits. */
  function ParseDigits(s: string): nat
    requires AllDigits(s)
  {
    if s == [] then 0 else ParseDigits(s[..|s| - 1]) * 10 + DigitValue(s[|s| - 1])
  }

  /** The three printed fields of a duration. */
  datatype Fields = Fields(minutes: nat, seconds: nat, millis: nat)

  /** The arithmetic of formatTime: whole seconds, then minutes and the leftover seconds and milliseconds. */
  function Split(ms: nat): (f: Fields)
    ensures f.seconds < 60 && f.millis < 1000
    ensures f.minutes * 60000 + f.seconds * 1000 + f.millis == ms
  {
    var totalSeconds := ms / 1000;
    Fields(totalSeconds / 60, totalSeconds % 60, ms % 1000)
  }

  /**
   * formatTime(ms) for a nonnegative integer ms: canonical minutes, ':',
   * the seconds within the minute as exactly two digits, '.', and the
   * milliseconds within the second as exactly three.
   */
  function FormatTime(ms: nat): (t: string)
    ensures |t| >= 8 && t[|t| - 7] == ':' && t[|t| - 4] == '.'
    ensures Canonical(t[..|t| - 7]) && ParseDigits(t[..|t| - 7]) == ms / 60000
    ensures AllDigits(t[|t| - 6..|t| - 4]) && ParseDigits(t[|t| - 6..|t| - 4]) == (ms / 1000) % 60
    ensures AllDigits(t[|t| - 3..]) && ParseDigits(t[|t| - 3..]) == ms % 1000
  {
    var f := Split(ms);
    var minutes := NatToString(f.minutes);
    var seconds := PadStart(NatToString(f.seconds), 2, '0');
    var millis := PadStart(NatToString(f.millis), 3, '0');
    SplitFields(ms);
    PaddedValue(f.seconds, 2);
    PaddedValue(f.millis, 3);
    ParseNatToString(f.minutes);
    Slices(minutes, seconds, millis);
    minutes + ":" + seconds + "." + millis
  }

  /** Reads M:SS.mmm back: canonical minutes, two digits of seconds below 60, three digits of milliseconds. */
  function ParseTime(t: string): Option<nat>
  {
    if |t| < 8 then None
    else
      var head, ss, mmm := t[..|t| - 7], t[|t| - 6..|t| - 4], t[|t| - 3..];
      if t[|t| - 7] == ':' && t[|t| - 4] == '.' && Canonical(head) && AllDigits(ss) && AllDigits(mmm)
         && ParseDigits(ss) < 60
      then Some(ParseDigits(head) * 60000 + ParseDigits(ss) * 1000 + ParseDigits(mmm))
      else None
  }

  // ---- Decimal numerals ----

  /** Parsing what toString printed gives the number back. */
  lemma {:induction false} ParseNatToString(n: nat)
    ensures ParseDigits(NatToString(n)) == n
  {
    if n >= 10 {
      var s := NatToString(n);
      assert s[..|s| - 1] == NatToString(n / 10);
      ParseNatToString(n / 10);
    }
  }

  /** A nonempty digit string without a leading zero has a positive value, unless it is "0". */
  lemma {:induction false} LeadingDigitPositive(s: string)
    requires Canonical(s) && s != "0"
    ensures ParseDigits(s) >= 1
  {
    if |s| > 1 {
      LeadingDigitPositive(s[..|s| - 1]);
    } else {
      assert DigitChar(0) == '0';
    }
  }

  /** toString of the value of a canonical numeral gives the numeral back. */
  lemma {:induction false} NatToStringParse(s: string)
    requires Canonical(s)
    ensures NatToString(ParseDigits(s)) == s
  {
    var n := ParseDigits(s);
    if |s| > 1 {
      var init := s[..|s| - 1];
      LeadingDigitPositive(init);
      NatToStringParse(init);
      assert n / 10 == ParseDigits(init) && n % 10 == DigitValue(s[|s| - 1]);
      assert s == init + [s[|s| - 1]];
    }
  }

  /** Leading zeros do not change the value of a digit string. */
  lemma {:induction false} LeadingZeros(z: string, s: string)
    requires forall k :: 0 <= k < |z| ==> z[k] == '0'
    requires AllDigits(s)
    ensures AllDigits(z + s) && ParseDigits(z + s) == ParseDigits(s)
    decreases |s| + |z|
  {
    if s == [] {
      assert z + s == z;
      if z != [] {
        assert z[..|z| - 1] + [] == z[..|z| - 1];
        LeadingZeros(z[..|z| - 1], []);
      }
    } else {
      assert (z + s)[..|z + s| - 1] == z + s[..|s| - 1];
      LeadingZeros(z, s[..|s| - 1]);
    }
  }

  /** A number below 10^w prints in at most w digits. */
  lemma {:induction false} NatToStringLength(n: nat, w: nat)
    requires w >= 1 && n < Pow10(w)
    ensures |NatToString(n)| <= w
  {
    if n >= 10 {
      assert w >= 2;
      NatToStringLength(n / 10, w - 1);
    }
  }

  /** Zero-padding a number below 10^w to width w gives w digits whose value is the number. */
  lemma PaddedValue(n: nat, w: nat)
    requires w >= 1 && n < Pow10(w)
    ensures |PadStart(NatToString(n), w, '0')| == w
    ensures AllDigits(PadStart(NatToString(n), w, '0'))
    ensures ParseDigits(PadStart(NatToString(n), w, '0')) == n
  {
    var s := NatToString(n);
    NatToStringLength(n, w);
    ParseNatToString(n);
    if |s| < w {
      LeadingZeros(seq(w - |s|, _ => '0'), s);
    }
  }

  /** Padding a shorter string to width w is one fill character before padding it to w - 1. */
  lemma PadStartStep(s: string, w: nat, fill: char)
    requires |s| < w
    ensures PadStart(s, w, fill) == [fill] + PadStart(s, w - 1, fill)
  {
  }

  /** A w-digit string is what zero-padding its value to width w prints. */
  lemma {:induction false} PaddedParse(s: string, w: nat)
    requires |s| == w >= 1 && AllDigits(s)
    ensures ParseDigits(s) < Pow10(w)
    ensures PadStart(NatToString(ParseDigits(s)), w, '0') == s
    decreases w
  {
    if Canonical(s) {
      NatToStringParse(s);
      BelowPow10(s);
    } else {
      var rest := s[1..];
      assert s == ['0'] + rest;
      LeadingZeros(['0'], rest);
      PaddedParse(rest, w - 1);
      var t := NatToString(ParseDigits(rest));
      NatToStringLength(ParseDigits(rest), w - 1);
      PadStartStep(t, w, '0');
    }
  }

  /** A string of w digits has a value below 10^w. */
  lemma {:induction false} BelowPow10(s: string)
    requires AllDigits(s)
    ensures ParseDigits(s) < Pow10(|s|)
  {
    if s != [] {
      BelowPow10(s[..|s| - 1]);
    }
  }

  // ---- Arithmetic of the fields ----

  /** The fields of a duration are the only ones with seconds below 60 and milliseconds below 1000 that add up to it. */
  lemma SplitUnique(ms: nat, f: Fields)
    requires f.seconds < 60 && f.millis < 1000
    requires f.minutes * 60000 + f.seconds * 1000 + f.millis == ms
    ensures Split(ms) == f
  {
  }

  // ---- formatTime ----

  /** The fields are the whole minutes, the seconds within the minute and the milliseconds within the second. */
  lemma SplitFields(ms: nat)
    ensures Split(ms) == Fields(ms / 60000, (ms / 1000) % 60, ms % 1000)
  {
  }

  /** The pieces of minutes ':' seconds '.' milliseconds can be cut back out by their positions from the end. */
  lemma Slices(m: string, ss: string, mmm: string)
    requires |ss| == 2 && |mmm| == 3
    ensures var t := m + ":" + ss + "." + mmm;
            |t| == |m| + 7 && t[|t| - 7] == ':' && t[|t| - 4] == '.' &&
            t[..|t| - 7] == m && t[|t| - 6..|t| - 4] == ss && t[|t| - 3..] == mmm
  {
  }

  /** Reading back a formatted time gives the duration. */
  lemma FormatTimeRoundTrip(ms: nat)
    ensures ParseTime(FormatTime(ms)) == Some(ms)
  {
  }

  /** Every string that reads back as a duration is exactly how formatTime prints that duration. */
  lemma ParseTimeFormats(t: string, ms: nat)
    requires ParseTime(t) == Some(ms)
    ensures FormatTime(ms) == t
  {
    var head, ss, mmm := t[..|t| - 7], t[|t| - 6..|t| - 4], t[|t| - 3..];
    var f := Fields(ParseDigits(head), ParseDigits(ss), ParseDigits(mmm));
    BelowPow10(mmm);
    assert Pow10(3) == 1000;
    SplitUnique(ms, f);
    NatToStringParse(head);
    PaddedParse(ss, 2);
    PaddedParse(mmm, 3);
    assert t == head + ":" + ss + "." + mmm;
  }

  /** formatTime(65432) prints "1:05.432". */
  lemma FormatTimeExample()
    ensures FormatTime(65432) == "1:05.432"
  {
  }
}
