/**
 * The small pure helpers of the quiz page: `escapeHTML`, `formatTime` and `arraysEqual`
 * (js/script.js, lines 35-58).
 */
module Helpers {
  import opened Text

  datatype Option<T> = None | Some(value: T)

  // escapeHTML

  /** The five characters `escapeHTML` rewrites. */
  predicate IsSpecial(c: char)
  {
    c == '&' || c == '<' || c == '>' || c == '"' || c == '\''
  }

  /** The replacement of one character: its entity when it is special, itself otherwise. */
  function Entity(c: char): string
  {
    match c
    case '&' => "&amp;"
    case '<' => "&lt;"
    case '>' => "&gt;"
    case '"' => "&quot;"
    case '\'' => "&#39;"
    case _ => [c]
  }

  /** `t` begins with one of the five entities `escapeHTML` produces. */
  predicate StartsEntity(t: string)
  {
    "&amp;" <= t || "&lt;" <= t || "&gt;" <= t || "&quot;" <= t || "&#39;" <= t
  }

  /** A raw character that is not allowed in escaped output. */
  predicate IsRaw(c: char)
  {
    c == '<' || c == '>' || c == '"' || c == '\''
  }

  /**
   * `escapeHTML`: every `&`, `<`, `>`, `"` and `'` replaced by its entity. The output holds
   * no raw `<`, `>`, `"` or `'`, and every `&` in it opens one of the five entities.
   */
  function EscapeHtml(s: string): (r: string)
    ensures |r| >= |s|
    ensures forall i :: 0 <= i < |r| ==> !IsRaw(r[i])
    ensures forall i :: 0 <= i < |r| && r[i] == '&' ==> StartsEntity(r[i..])
  {
    if s == [] then []
    else
      var e := Entity(s[0]);
      var rest := EscapeHtml(s[1..]);
      var r := e + rest;
      EntityShape(s[0], rest);
      assert forall i :: |e| <= i < |r| ==> r[i..] == rest[i - |e|..];
      r
  }

  /** An entity holds no raw character, and its only `&` is its first character. */
  lemma EntityShape(c: char, rest: string)
    ensures forall i :: 0 <= i < |Entity(c)| ==> !IsRaw(Entity(c)[i])
    ensures forall i :: 0 <= i < |Entity(c)| && Entity(c)[i] == '&' ==> i == 0
    ensures IsSpecial(c) ==> StartsEntity(Entity(c) + rest)
    ensures !IsSpecial(c) ==> Entity(c) == [c] && c != '&'
  {
    var t := Entity(c) + rest;
    if IsSpecial(c) {
      assert Entity(c) <= t;
    }
  }

  /** Decoding of the five entities, the inverse of `EscapeHtml`. */
  function Unescape(t: string): string
  {
    if t == [] then []
    else if "&amp;" <= t then ['&'] + Unescape(t[5..])
    else if "&lt;" <= t then ['<'] + Unescape(t[4..])
    else if "&gt;" <= t then ['>'] + Unescape(t[4..])
    else if "&quot;" <= t then ['"'] + Unescape(t[6..])
    else if "&#39;" <= t then ['\''] + Unescape(t[5..])
    else [t[0]] + Unescape(t[1..])
  }

  lemma UnescapeEntity(c: char, rest: string)
    ensures Unescape(Entity(c) + rest) == [c] + Unescape(rest)
  {
    var t := Entity(c) + rest;
    assert t[|Entity(c)|..] == rest;
    assert t[0] == '&' <==> IsSpecial(c);
    if IsSpecial(c) {
      assert t[1] == Entity(c)[1];
      if c != '&' {
        assert !("&amp;" <= t);
      }
      if c != '&' && c != '<' && c != '>' {
        assert !("&lt;" <= t) && !("&gt;" <= t);
      }
      if c == '\'' {
        assert !("&quot;" <= t);
      }
    } else {
      assert Entity(c) == [c];
      assert !("&amp;" <= t) && !("&lt;" <= t) && !("&gt;" <= t) && !("&quot;" <= t) && !("&#39;" <= t);
    }
  }

  /** Escaping loses nothing: decoding the entities gives the input back, character for character. */
  lemma {:induction false} EscapeRoundTrip(s: string)
    ensures Unescape(EscapeHtml(s)) == s
    decreases |s|
  {
    if s != [] {
      EscapeRoundTrip(s[1..]);
      UnescapeEntity(s[0], EscapeHtml(s[1..]));
      assert s == [s[0]] + s[1..];
    }
  }

  /** Text without special characters is copied unchanged. */
  lemma {:induction false} EscapePlain(s: string)
    requires forall i :: 0 <= i < |s| ==> !IsSpecial(s[i])
    ensures EscapeHtml(s) == s
    decreases |s|
  {
    if s != [] {
      EscapePlain(s[1..]);
      assert s == [s[0]] + s[1..];
    }
  }

  /** Escaping works character by character, so it distributes over concatenation. */
  lemma {:induction false} EscapeConcat(a: string, b: string)
    ensures EscapeHtml(a + b) == EscapeHtml(a) + EscapeHtml(b)
    decreases |a|
  {
    if a == [] {
      assert a + b == b;
    } else {
      var ab := a + b;
      assert ab[0] == a[0] && ab[1..] == a[1..] + b;
      calc {
        EscapeHtml(ab);
        Entity(a[0]) + EscapeHtml(a[1..] + b);
        { EscapeConcat(a[1..], b); }
        Entity(a[0]) + (EscapeHtml(a[1..]) + EscapeHtml(b));
        (Entity(a[0]) + EscapeHtml(a[1..])) + EscapeHtml(b);
      }
    }
  }

  // formatTime

  datatype Clock = Clock(hours: nat, minutes: nat, seconds: nat)

  /** Negative seconds count as zero: the larger of `s` and 0. */
  function Clamp(s: int): (r: nat)
    ensures r >= s
    ensures r == s || r == 0
  {
    if s < 0 then 0 else s
  }

  lemma ModOfMultiple(q: nat, r: nat)
    ensures (60 * q + r) % 60 == r % 60
  {
    var x := 60 * q + r;
    assert x == 60 * (q + r / 60) + r % 60;
  }

  /** The hour, minute and second fields of `formatTime`: a mixed-radix split of the clamped input. */
  function ClockOf(s: int): (c: Clock)
    ensures c.hours * 3600 + c.minutes * 60 + c.seconds == Clamp(s)
    ensures c.minutes < 60 && c.seconds < 60
  {
    var t := Clamp(s);
    var h, rem := t / 3600, t % 3600;
    assert t == 60 * (60 * h) + rem;
    ModOfMultiple(60 * h, rem);
    Clock(h, rem / 60, t % 60)
  }

  /** Decimal digits padded on the left with zeros to at least two characters. */
  function Pad2(digits: string): (r: string)
    ensures |r| == if |digits| >= 2 then |digits| else 2
  {
    if |digits| >= 2 then digits else seq(2 - |digits|, _ => '0') + digits
  }

  /** The padding goes in front: the digits end the result and everything before them is `0`. */
  lemma Pad2Spec(digits: string)
    ensures Pad2(digits)[|Pad2(digits)| - |digits|..] == digits
    ensures forall i :: 0 <= i < |Pad2(digits)| - |digits| ==> Pad2(digits)[i] == '0'
  {
  }

  /** `formatTime`: `HH:MM:SS`, each field zero-padded to at least two digits. */
  function FormatTime(s: int): (r: string)
    ensures |r| >= 8
    ensures Clamp(s) < 360000 ==> |r| == 8 && r[2] == ':' && r[5] == ':'
  {
    var c := ClockOf(s);
    var hh, mm, ss := Pad2(Decimal(c.hours)), Pad2(Decimal(c.minutes)), Pad2(Decimal(c.seconds));
    assert |hh| >= 2 && |mm| == 2 && |ss| == 2;
    assert Clamp(s) < 360000 ==> |hh| == 2;
    hh + ":" + mm + ":" + ss
  }

  /** Reads `H:M:S` (digit fields of any width) back as a number of seconds. */
  function ParseClock(t: string): Option<nat>
  {
    var parts := Split(t, {':'});
    if |parts| == 3 && AllDigits(parts[0]) && AllDigits(parts[1]) && AllDigits(parts[2])
    then Some(ValueOf(parts[0]) * 3600 + ValueOf(parts[1]) * 60 + ValueOf(parts[2]))
    else None
  }

  lemma {:induction false} PadValue(n: nat)
    ensures AllDigits(Pad2(Decimal(n))) && ValueOf(Pad2(Decimal(n))) == n
  {
    var d := Decimal(n);
    if |d| < 2 {
      assert Pad2(d) == ['0'] + d;
      LeadingZero(d);
    }
  }

  /** The three zero-padded fields of `FormatTime(s)`. */
  function ClockFields(s: int): seq<string>
  {
    var c := ClockOf(s);
    [Pad2(Decimal(c.hours)), Pad2(Decimal(c.minutes)), Pad2(Decimal(c.seconds))]
  }

  lemma {:induction false} FormatTimeIsJoin(s: int)
    ensures |ClockFields(s)| == 3 && FormatTime(s) == Join(ClockFields(s), ':')
  {
    var parts := ClockFields(s);
    var a, b, d := parts[0], parts[1], parts[2];
    assert parts[1..] == [b, d];
    assert [b, d][1..] == [d];
    calc {
      Join(parts, ':');
      a + [':'] + Join([b, d], ':');
      a + [':'] + (b + [':'] + Join([d], ':'));
      a + [':'] + (b + [':'] + d);
      a + ":" + b + ":" + d;
    }
  }

  lemma {:induction false} SplitFormatTime(s: int)
    ensures Split(FormatTime(s), {':'}) == ClockFields(s)
  {
    var c := ClockOf(s);
    var parts := ClockFields(s);
    PadValue(c.hours);
    PadValue(c.minutes);
    PadValue(c.seconds);
    FormatTimeIsJoin(s);
    forall k | 0 <= k < 3 ensures NoneOf(parts[k], {':'}) {
      assert AllDigits(parts[k]);
    }
    SplitJoin(parts, ':', {':'});
  }

  /**
   * `formatTime` loses nothing beyond the clamp: its three fields read back as
   * hours * 3600 + minutes * 60 + seconds give the clamped number of seconds.
   */
  lemma {:induction false} FormatTimeRoundTrip(s: int)
    ensures ParseClock(FormatTime(s)) == Some(Clamp(s))
  {
    var c := ClockOf(s);
    SplitFormatTime(s);
    PadValue(c.hours);
    PadValue(c.minutes);
    PadValue(c.seconds);
    var parts := ClockFields(s);
    assert ValueOf(parts[0]) == c.hours && ValueOf(parts[1]) == c.minutes && ValueOf(parts[2]) == c.seconds;
  }

  lemma FormatTimeExample()
    ensures FormatTime(7200) == "02:00:00"
  {
    assert ClockOf(7200) == Clock(2, 0, 0);
  }

  // arraysEqual

  /** `arraysEqual`: same length and strictly equal element by element, which is sequence equality. */
  function ArraysEqual<T(==)>(a: seq<T>, b: seq<T>): (r: bool)
    ensures r <==> a == b
  {
    |a| == |b| && forall i :: 0 <= i < |a| ==> a[i] == b[i]
  }
}
