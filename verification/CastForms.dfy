/** The texts DuckDB's casts take, as a grammar: a text is cast to a value if and only if
    it is one of these forms and the form has that value. */
module CastForms {
  import opened Lake
  import opened Words
  import opened DuckdbCast
  import opened CastValues
  import opened CastExact

  lemma Assoc(a: string, b: string, c: string)
    ensures a + (b + c) == a + b + c
  {
  }

  // ----- Digits -----

  /** Digits, single `_`s between them. */
  predicate Separated(t: string) {
    && t != "" && IsDigit(t[0]) && IsDigit(t[|t| - 1])
    && forall i | 0 <= i < |t| :: IsDigit(t[i]) || BetweenDigits(t, i)
  }

  predicate BetweenDigits(t: string, i: nat) {
    0 < i < |t| - 1 && t[i] == '_' && IsDigit(t[i - 1]) && IsDigit(t[i + 1])
  }

  /** What may follow a run of digits. */
  predicate Stops(rest: string) {
    rest != "" ==> !IsDigit(rest[0]) && rest[0] != '_'
  }

  lemma {:induction false} RunEndsFrom(before: string, t: string, rest: string, k: nat)
    requires Separated(t) && Stops(rest) && k < |t| && IsDigit(t[k])
    ensures DigitsEnd(before + t + rest, |before| + k) == Some(|before| + |t|)
    decreases |t| - k
  {
    var buf, pos := before + t + rest, |before| + k;
    assert buf[pos] == t[k];
    if k + 1 == |t| {
      assert pos + 1 < |buf| ==> buf[pos + 1] == rest[0];
    } else {
      assert buf[pos + 1] == t[k + 1];
      if t[k + 1] == '_' {
        assert BetweenDigits(t, k + 1) && buf[pos + 2] == t[k + 2];
        RunEndsFrom(before, t, rest, k + 2);
      } else {
        RunEndsFrom(before, t, rest, k + 1);
      }
    }
  }

  lemma RunEnds(before: string, t: string, rest: string, buf: string)
    requires (t == "" || Separated(t)) && Stops(rest) && buf == before + t + rest
    ensures DigitsEnd(buf, |before|) == Some(|before| + |t|)
  {
    if t == "" {
      assert rest != "" ==> buf[|before|] == rest[0];
    } else {
      RunEndsFrom(before, t, rest, 0);
    }
  }

  /** What a run of digits is made of. */
  lemma {:induction false} RunIsSeparated(buf: string, pos: nat, end: nat)
    requires pos < |buf| && IsDigit(buf[pos]) && DigitsEnd(buf, pos) == Some(end)
    ensures pos < end <= |buf| && Separated(buf[pos..end])
    decreases |buf| - pos
  {
    var t := buf[pos..end];
    if pos + 1 < |buf| && buf[pos + 1] == '_' {
      RunIsSeparated(buf, pos + 2, end);
      SeparatedOn(t, buf[pos + 2..end], 2);
    } else if pos + 1 < |buf| && IsDigit(buf[pos + 1]) {
      RunIsSeparated(buf, pos + 1, end);
      SeparatedOn(t, buf[pos + 1..end], 1);
    }
  }

  lemma SeparatedOn(t: string, rest: string, n: nat)
    requires Separated(rest) && 1 <= n <= 2 && |t| == n + |rest| && t[n..] == rest && IsDigit(t[0])
             && (n == 2 ==> t[1] == '_')
    ensures Separated(t)
  {
    assert t[n] == rest[0] && t[|t| - 1] == rest[|rest| - 1];
    forall i | 0 <= i < |t|
      ensures IsDigit(t[i]) || BetweenDigits(t, i)
    {
      if i >= n {
        assert t[i] == rest[i - n];
        if !IsDigit(t[i]) {
          assert BetweenDigits(rest, i - n) && t[i - 1] == rest[i - n - 1] && t[i + 1] == rest[i - n + 1];
        }
      }
    }
  }

  lemma RunParts(buf: string, pos: nat, end: nat)
    requires pos <= |buf| && DigitsEnd(buf, pos) == Some(end)
    ensures pos <= end <= |buf| && (buf[pos..end] == "" || Separated(buf[pos..end]))
  {
    if pos < |buf| && IsDigit(buf[pos]) {
      RunIsSeparated(buf, pos, end);
    }
  }

  // ----- Numbers -----

  predicate IsSign(sign: string) {
    sign == "" || sign == "+" || sign == "-"
  }

  /** Digits with a fraction, if `point`, and at least one digit. */
  predicate IsNumber(whole: string, point: bool, fraction: string) {
    && (whole == "" || Separated(whole)) && (fraction == "" || Separated(fraction))
    && (whole != "" || fraction != "") && (!point ==> fraction == "")
  }

  function Behind(point: bool, fraction: string): string {
    if point then "." + fraction else ""
  }

  predicate AfterNumber(tail: string) {
    tail != "" ==> IsSpace(tail[0]) || tail[0] in "eE"
  }

  lemma StartAt(sign: string, whole: string, rest: string)
    requires IsSign(sign) && (whole == "" || Separated(whole)) && (whole == "" ==> rest != "" && rest[0] == '.')
    ensures sign + whole + rest != "" && StartOf(sign + whole + rest, sign == "-") == |sign|
    ensures !IsSpace((sign + whole + rest)[0]) && ((sign + whole + rest)[0] == '-' <==> sign == "-")
  {
    var buf := sign + whole + rest;
    assert buf[0] == if sign != "" then sign[0] else if whole != "" then whole[0] else rest[0];
  }

  lemma PointAt(before: string, fraction: string, tail: string, buf: string)
    requires buf == before + (Behind(true, fraction) + tail)
    ensures |before| < |buf| && buf[|before|] == '.' && buf == (before + ".") + fraction + tail
  {
    assert Behind(true, fraction) == "." + fraction;
  }

  lemma EndAt(before: string, point: bool, fraction: string, tail: string, buf: string)
    requires (fraction == "" || Separated(fraction)) && AfterNumber(tail) && (!point ==> fraction == "")
    requires buf == before + (Behind(point, fraction) + tail)
    ensures EndOf(buf, |before|) == Some(|before| + |Behind(point, fraction)|)
  {
    if point {
      PointAt(before, fraction, tail, buf);
      assert Stops(tail);
      RunEnds(before + ".", fraction, tail, buf);
    } else {
      assert tail != "" ==> buf[|before|] == tail[0];
    }
  }

  lemma RestStops(point: bool, fraction: string, tail: string)
    requires AfterNumber(tail)
    ensures Stops(Behind(point, fraction) + tail)
            && (point ==> Behind(point, fraction) + tail != "" && (Behind(point, fraction) + tail)[0] == '.')
  {
    if !point {
      assert Behind(point, fraction) + tail == tail;
    }
  }

  lemma Slices(sign: string, whole: string, point: bool, fraction: string, tail: string, buf: string)
    requires !point ==> fraction == ""
    requires buf == sign + whole + (Behind(point, fraction) + tail)
    ensures var l := LayoutFor(sign, whole, point, fraction);
            l.end <= |buf| && Whole(buf, l) == whole && Fraction(buf, l) == fraction && buf[l.end..] == tail
  {
  }

  /** The layout of a number's text. */
  lemma LayoutAt(sign: string, whole: string, point: bool, fraction: string, tail: string, buf: string)
    requires IsSign(sign) && IsNumber(whole, point, fraction) && AfterNumber(tail)
    requires buf == sign + whole + (Behind(point, fraction) + tail)
    ensures buf != "" && LayoutOf(buf, sign == "-") == Some(LayoutFor(sign, whole, point, fraction))
    ensures !IsSpace(buf[0]) && (buf[0] == '-' <==> sign == "-")
  {
    var rest := Behind(point, fraction) + tail;
    var l := LayoutFor(sign, whole, point, fraction);
    RestStops(point, fraction, tail);
    StartAt(sign, whole, rest);
    assert DigitsEnd(buf, l.start) == Some(l.point) by {
      RunEnds(sign, whole, rest, buf);
    }
    assert EndOf(buf, l.point) == Some(l.end) by {
      EndAt(sign + whole, point, fraction, tail, buf);
    }
    LayoutFrom(buf, sign == "-", l);
  }

  lemma LayoutFrom(buf: string, negative: bool, l: Layout)
    requires buf != "" && StartOf(buf, negative) == l.start && DigitsEnd(buf, l.start) == Some(l.point)
    requires l.point <= |buf| && EndOf(buf, l.point) == Some(l.end)
    ensures LayoutOf(buf, negative) == Some(l)
  {
  }

  function LayoutFor(sign: string, whole: string, point: bool, fraction: string): Layout {
    Layout(|sign|, |sign| + |whole|, |sign| + |whole| + |Behind(point, fraction)|)
  }

  lemma SpacesFollow(trail: string)
    requires AllSpace(trail)
    ensures AfterNumber(trail) && (trail != "" ==> IsSpace(trail[0]))
  {
    assert trail != "" ==> trail[0] in trail;
  }

  /** A number with nothing or spaces after it. */
  lemma EndCasts(plain: bool, buf: string, negative: bool, l: Layout, f: Meaning)
    requires buf != "" && LayoutOf(buf, negative) == Some(l) && AllSpace(buf[l.end..])
    requires l.end > l.start && Readable(plain, buf, l)
    ensures PlainOf(plain, buf, negative, f) == f(Whole(buf, l), Fraction(buf, l), None)
    ensures !HasExponent(buf, l)
  {
    assert l.end < |buf| ==> buf[l.end] in buf[l.end..];
  }

  // ----- Exponents -----

  /** An exponent may end in a point, and may have no digits where spaces follow. */
  datatype Exponent = NoExponent | Exponent(mark: char, sign: string, digits: string, point: bool) | Blank(mark: char,
    sign: string)

  predicate IsExponent(e: Exponent, trail: string) {
    match e
    case NoExponent => true
    case Exponent(mark, sign, digits, _) => mark in "eE" && IsSign(sign) && Separated(digits)
    case Blank(mark, sign) => mark in "eE" && IsSign(sign) && trail != ""
  }

  /** The power of ten meant, if it fits its 16 bits. */
  function PowerOf(e: Exponent): Option<int> {
    match e
    case Exponent(_, sign, digits, _) =>
      var x := Signed(sign == "-", Number(digits));
      if Fits(INT16, x) then Some(x) else None
    case _ => Some(0)
  }

  /** What a number with this exponent means. */
  function Meant(e: Exponent, whole: string, fraction: string, f: Meaning): Option<int> {
    if e.NoExponent? then f(whole, fraction, None) else if PowerOf(e).Some? then f(whole, fraction, PowerOf(e))
      else None
  }

  /** What follows the mark. */
  function BehindMark(e: Exponent): string
    requires !e.NoExponent?
  {
    match e
    case Exponent(_, sign, digits, point) => sign + digits + Behind(point, "")
    case Blank(_, sign) => sign
  }

  function ExponentText(e: Exponent): string {
    if e.NoExponent? then "" else [e.mark] + BehindMark(e)
  }

  lemma PlainValue(sign: string, digits: string)
    ensures CodeOf(EXPONENT, sign == "-", digits, "", None) ==
            if Fits(INT16, Signed(sign == "-", Number(digits))) then Some(Signed(sign == "-", Number(digits))) else None
  {
  }

  /** Nothing but spaces where digits should start. */
  lemma NoDigits(sign: string, trail: string, buf: string)
    requires IsSign(sign) && trail != "" && AllSpace(trail) && buf == sign + trail
    ensures buf != "" && (buf[0] == '-' <==> sign == "-") && buf[|sign|..] == trail
    ensures LayoutOf(buf, sign == "-") == Some(Layout(|sign|, |sign|, |sign|))
  {
    assert trail[0] in trail && buf[|sign|] == trail[0];
    assert buf[0] == if sign != "" then sign[0] else trail[0];
  }

  /** A sign, if any, and spaces read as zero. */
  lemma NothingCasts(plain: bool, sign: string, trail: string, buf: string, f: Meaning)
    requires IsSign(sign) && trail != "" && AllSpace(trail) && buf == sign + trail
    ensures PlainOf(plain, buf, sign == "-", f) == f("", "", None)
            && CastWith(plain, buf, sign == "-", true, f) == f("", "", None)
  {
    NoDigits(sign, trail, buf);
    var l := Layout(|sign|, |sign|, |sign|);
    assert Whole(buf, l) == "" && Fraction(buf, l) == "";
  }

  lemma DigitsRead(sign: string, digits: string, point: bool, trail: string, text: string)
    requires IsSign(sign) && Separated(digits) && AllSpace(trail) && text == sign + digits + (Behind(point, "") + trail)
    ensures text != "" && (text[0] == '-' <==> sign == "-")
    ensures PlainOf(true, text, sign == "-", MeaningOf(EXPONENT, sign == "-")) ==
            CodeOf(EXPONENT, sign == "-", digits, "", None)
  {
    SpacesFollow(trail);
    LayoutAt(sign, digits, point, "", trail, text);
    Slices(sign, digits, point, "", trail, text);
    EndCasts(true, text, sign == "-", LayoutFor(sign, digits, point, ""), MeaningOf(EXPONENT, sign == "-"));
  }

  lemma BlankReads(e: Exponent, trail: string, text: string)
    requires e.Blank? && IsExponent(e, trail) && AllSpace(trail) && text == e.sign + trail
    ensures text != "" && ExponentOf(text) == Some(0)
  {
    NoDigits(e.sign, trail, text);
    NothingCasts(true, e.sign, trail, text, MeaningOf(EXPONENT, e.sign == "-"));
    PlainValue(e.sign, "");
  }

  lemma PowerReads(e: Exponent, trail: string, text: string)
    requires e.Exponent? && IsExponent(e, trail) && AllSpace(trail)
             && text == e.sign + e.digits + (Behind(e.point, "") + trail)
    ensures text != "" && ExponentOf(text) == PowerOf(e)
  {
    DigitsRead(e.sign, e.digits, e.point, trail, text);
    PlainValue(e.sign, e.digits);
  }

  lemma ExponentReads(e: Exponent, trail: string, text: string)
    requires !e.NoExponent? && IsExponent(e, trail) && AllSpace(trail) && text == BehindMark(e) + trail
    ensures text != "" && ExponentOf(text) == PowerOf(e)
  {
    if e.Exponent? {
      Assoc(e.sign + e.digits, Behind(e.point, ""), trail);
      PowerReads(e, trail, text);
    } else {
      BlankReads(e, trail, text);
    }
  }

  lemma ExponentTail(buf: string, end: nat, e: Exponent, trail: string)
    requires !e.NoExponent? && end <= |buf| && buf[end..] == ExponentText(e) + trail
    ensures end < |buf| && buf[end] == e.mark && buf[end + 1..] == BehindMark(e) + trail
  {
    assert buf[end..][0] == e.mark;
    assert buf[end + 1..] == buf[end..][1..];
  }

  /** A number with an exponent after it. */
  lemma ExponentCasts(buf: string, negative: bool, l: Layout, e: Exponent, trail: string, f: Meaning)
    requires buf != "" && LayoutOf(buf, negative) == Some(l) && l.end > l.start && Readable(false, buf, l)
    requires !e.NoExponent? && IsExponent(e, trail) && AllSpace(trail) && buf[l.end..] == ExponentText(e) + trail
    ensures CastWith(false, buf, negative, true, f) ==
            if PowerOf(e).Some? then f(Whole(buf, l), Fraction(buf, l), PowerOf(e)) else None
  {
    ExponentTail(buf, l.end, e, trail);
    ExponentReads(e, trail, buf[l.end + 1..]);
    ExponentStep(buf, negative, l, f, buf[l.end + 1..], PowerOf(e));
  }

  // ----- Radix digits -----

  predicate IsRadixDigit(ch: char, radix: nat) {
    RadixDigit(ch, radix).Some?
  }

  predicate BetweenRadix(t: string, i: nat, radix: nat) {
    0 < i < |t| - 1 && t[i] == '_' && IsRadixDigit(t[i - 1], radix) && IsRadixDigit(t[i + 1], radix)
  }

  /** Digits of the radix, single `_`s between them. */
  predicate RadixSeparated(t: string, radix: nat) {
    && t != "" && IsRadixDigit(t[0], radix) && IsRadixDigit(t[|t| - 1], radix)
    && forall i | 0 <= i < |t| :: IsRadixDigit(t[i], radix) || BetweenRadix(t, i, radix)
  }

  /** The number a text's radix digits spell. */
  function RadixValue(t: string, radix: nat): nat {
    if t == "" then 0
    else
      var front, digit := RadixValue(t[..|t| - 1], radix), RadixDigit(t[|t| - 1], radix);
      if digit.Some? then radix * front + digit.value else front
  }

  lemma RadixStep(buf: string, start: nat, pos: nat, radix: nat)
    requires start <= pos < |buf|
    ensures var digit := RadixDigit(buf[pos], radix);
            RadixValue(buf[start..pos + 1], radix) ==
            if digit.Some? then radix * RadixValue(buf[start..pos], radix) + digit.value
              else RadixValue(buf[start..pos], radix)
  {
    var t := buf[start..pos + 1];
    assert t[|t| - 1] == buf[pos] && t[..|t| - 1] == buf[start..pos];
  }

  lemma RadixStepOver(buf: string, pos: nat, radix: nat)
    requires (radix == 2 || radix == 16) && 1 <= pos && pos + 1 < |buf| && IsRadixDigit(buf[pos], radix)
             && buf[pos + 1] == '_'
    ensures RadixValue(buf[1..pos + 2], radix) == RadixValue(buf[1..pos + 1], radix)
  {
    UnderscoreIsNoDigit(radix);
    RadixStep(buf, 1, pos + 1, radix);
  }

  ghost function Reads(buf: string, pos: nat, radix: nat): Option<nat>
    requires 1 <= pos <= |buf|
  {
    if RadixSeparated(buf[pos..], radix) then Some(RadixValue(buf[1..], radix)) else None
  }

  /** From a digit on, the loop reads the rest if it is well formed, and nothing else. */
  lemma {:induction false} RadixReads(buf: string, pos: nat, radix: nat, acc: nat)
    requires (radix == 2 || radix == 16) && pos < |buf|
    requires 1 <= pos && acc == RadixValue(buf[1..pos], radix)
    ensures RadixNumber(buf, pos, radix, acc) == Reads(buf, pos, radix)
    decreases |buf| - pos
  {
    assert buf[pos..][0] == buf[pos];
    if IsRadixDigit(buf[pos], radix) {
      var next := RadixValue(buf[1..pos + 1], radix);
      RadixStep(buf, 1, pos, radix);
      RadixUnfolds(buf, pos, radix, acc, RadixDigit(buf[pos], radix).value, next);
      if pos + 1 == |buf| {
        RadixLast(buf, pos, radix);
      } else if buf[pos + 1] == '_' {
        RadixUnderscore(buf, pos, radix);
        RadixStepOver(buf, pos, radix);
        if pos + 2 < |buf| {
          RadixReads(buf, pos + 2, radix, next);
        }
      } else {
        RadixPlain(buf, pos, radix);
        RadixReads(buf, pos + 1, radix, next);
      }
    }
  }

  lemma RadixLast(buf: string, pos: nat, radix: nat)
    requires 1 <= pos && pos + 1 == |buf| && IsRadixDigit(buf[pos], radix)
    ensures RadixSeparated(buf[pos..], radix)
    ensures RadixValue(buf[1..], radix) == RadixValue(buf[1..pos + 1], radix)
  {
    assert buf[1..pos + 1] == buf[1..] && |buf[pos..]| == 1;
  }

  lemma UnderscoreIsNoDigit(radix: nat)
    requires radix == 2 || radix == 16
    ensures !IsRadixDigit('_', radix)
  {
  }

  lemma RadixOn(t: string, rest: string, n: nat, radix: nat)
    requires 1 <= n <= 2 && |t| == n + |rest| && rest != "" && t[n..] == rest && IsRadixDigit(t[0], radix)
             && (n == 2 ==> t[1] == '_')
    requires RadixSeparated(rest, radix)
    ensures RadixSeparated(t, radix)
  {
    assert t[n] == rest[0] && t[|t| - 1] == rest[|rest| - 1];
    forall i | 0 <= i < |t|
      ensures IsRadixDigit(t[i], radix) || BetweenRadix(t, i, radix)
    {
      if i >= n {
        assert t[i] == rest[i - n];
        if !IsRadixDigit(t[i], radix) {
          assert BetweenRadix(rest, i - n, radix) && t[i - 1] == rest[i - n - 1] && t[i + 1] == rest[i - n + 1];
        }
      }
    }
  }

  lemma RadixOff(t: string, rest: string, n: nat, radix: nat)
    requires 1 <= n <= 2 && |t| == n + |rest| && rest != "" && t[n..] == rest && IsRadixDigit(rest[0], radix)
    requires RadixSeparated(t, radix)
    ensures RadixSeparated(rest, radix)
  {
    assert t[n] == rest[0] && t[|t| - 1] == rest[|rest| - 1];
    forall i | 0 <= i < |rest|
      ensures IsRadixDigit(rest[i], radix) || BetweenRadix(rest, i, radix)
    {
      assert t[i + n] == rest[i];
      if !IsRadixDigit(rest[i], radix) {
        assert i > 0 && BetweenRadix(t, i + n, radix) && t[i + n - 1] == rest[i - 1] && t[i + n + 1] == rest[i + 1];
      }
    }
  }

  lemma RadixUnderscore(buf: string, pos: nat, radix: nat)
    requires (radix == 2 || radix == 16) && pos + 1 < |buf| && IsRadixDigit(buf[pos], radix) && buf[pos + 1] == '_'
    ensures RadixSeparated(buf[pos..], radix) <==>
            pos + 2 < |buf| && IsRadixDigit(buf[pos + 2], radix) && RadixSeparated(buf[pos + 2..], radix)
  {
    var t := buf[pos..];
    UnderscoreIsNoDigit(radix);
    assert t[0] == buf[pos] && t[1] == '_';
    if RadixSeparated(t, radix) {
      assert BetweenRadix(t, 1, radix) && t[2] == buf[pos + 2];
      assert buf[pos + 2..] == t[2..];
      RadixOff(t, buf[pos + 2..], 2, radix);
    } else if pos + 2 < |buf| && RadixSeparated(buf[pos + 2..], radix) {
      assert buf[pos + 2..] == t[2..];
      RadixOn(t, buf[pos + 2..], 2, radix);
    }
  }

  lemma RadixPlain(buf: string, pos: nat, radix: nat)
    requires (radix == 2 || radix == 16) && pos + 1 < |buf| && IsRadixDigit(buf[pos], radix) && buf[pos + 1] != '_'
    ensures RadixSeparated(buf[pos..], radix) <==> RadixSeparated(buf[pos + 1..], radix)
  {
    var t, rest := buf[pos..], buf[pos + 1..];
    assert t[0] == buf[pos] && t[1] == rest[0] && t[1..] == rest;
    if RadixSeparated(t, radix) {
      assert !BetweenRadix(t, 1, radix);
      RadixOff(t, rest, 1, radix);
    } else if RadixSeparated(rest, radix) {
      RadixOn(t, rest, 1, radix);
    }
  }

  // ----- Forms -----

  /** A text without its leading spaces: a number, hexadecimal or binary digits, or a sign
      with only spaces after it. */
  datatype Form =
    | Numeral(sign: string, whole: string, point: bool, fraction: string, e: Exponent, trail: string)
    | Radix(mark: char, digits: string)
    | SignOnly(sign: string, trail: string)

  function RadixOfMark(mark: char): nat {
    if mark in "xX" then 16 else 2
  }

  predicate IsForm(f: Form) {
    match f
    case Numeral(sign, whole, point, fraction, e, trail) =>
      IsSign(sign) && IsNumber(whole, point, fraction) && IsExponent(e, trail) && AllSpace(trail)
    case Radix(mark, digits) => mark in "xXbB" && RadixSeparated(digits, RadixOfMark(mark))
    case SignOnly(sign, trail) => (sign == "+" || sign == "-") && trail != "" && AllSpace(trail)
  }

  function TextOf(f: Form): string {
    match f
    case Numeral(sign, whole, point, fraction, e, trail) => sign + whole +
      (Behind(point, fraction) + (ExponentText(e) + trail))
    case Radix(mark, digits) => "0" + [mark] + digits
    case SignOnly(sign, trail) => sign + trail
  }

  /** A type without negative values takes a minus only before zeros and nothing else. */
  predicate Refused(c: Cast, f: Form) {
    !f.Radix? && f.sign == "-" && c.store.min == 0 && !AllZero(TextOf(f)[|f.sign|..])
  }

  /** What a form is cast to. */
  function ValueOf(c: Cast, f: Form): Option<int>
    requires IsForm(f)
  {
    if Refused(c, f) then None
    else
      match f
      case Numeral(sign, whole, _, fraction, e, _) =>
        Meant(e, whole, fraction, MeaningOf(c, sign == "-"))
      case Radix(mark, digits) =>
        var v := RadixValue(digits, RadixOfMark(mark));
        if Fits(c.result, v) then Some(v) else None
      case SignOnly(_, _) => Some(0)
  }

  lemma {:induction false} TrimsLead(lead: string, rest: string)
    requires AllSpace(lead) && rest != "" && !IsSpace(rest[0])
    ensures Trimmed(lead + rest) == rest
    decreases |lead|
  {
    if lead == "" {
      assert lead + rest == rest;
    } else {
      assert lead[0] in lead && (lead + rest)[1..] == lead[1..] + rest;
      TrimsLead(lead[1..], rest);
    }
  }

  lemma FollowedBy(e: Exponent, trail: string)
    requires IsExponent(e, trail) && AllSpace(trail)
    ensures AfterNumber(ExponentText(e) + trail)
  {
    SpacesFollow(trail);
    if e.NoExponent? {
      assert ExponentText(e) + trail == trail;
    } else {
      assert (ExponentText(e) + trail)[0] == e.mark;
    }
  }

  lemma NumeralCasts(sign: string, whole: string, point: bool, fraction: string, e: Exponent, trail: string,
          buf: string, f: Meaning)
    requires IsSign(sign) && IsNumber(whole, point, fraction) && IsExponent(e, trail) && AllSpace(trail)
    requires buf == sign + whole + (Behind(point, fraction) + (ExponentText(e) + trail))
    ensures buf != "" && !IsSpace(buf[0]) && (buf[0] == '-' <==> sign == "-")
    ensures CastWith(false, buf, sign == "-", true, f) == Meant(e, whole, fraction, f)
  {
    FollowedBy(e, trail);
    LayoutAt(sign, whole, point, fraction, ExponentText(e) + trail, buf);
    Slices(sign, whole, point, fraction, ExponentText(e) + trail, buf);
    var l := LayoutFor(sign, whole, point, fraction);
    if e.NoExponent? {
      assert ExponentText(e) + trail == trail;
      EndCasts(false, buf, sign == "-", l, f);
    } else {
      ExponentCasts(buf, sign == "-", l, e, trail, f);
    }
  }

  lemma NoRadix(sign: string, whole: string, point: bool, fraction: string, tail: string)
    requires IsSign(sign) && IsNumber(whole, point, fraction) && AfterNumber(tail)
    ensures !HasRadix(sign + whole + (Behind(point, fraction) + tail))
  {
    var rest := Behind(point, fraction) + tail;
    var buf := sign + whole + rest;
    if sign == "" && |whole| >= 2 {
      assert buf[1] == whole[1];
    } else if sign == "" && |whole| == 1 && |buf| > 1 {
      assert buf[1] == rest[0];
    }
  }

  lemma SpacesAreNoZeros(trail: string, buf: string)
    requires trail != "" && AllSpace(trail) && |buf| >= |trail| && buf[|buf| - |trail|..] == trail
    ensures !AllZero(buf)
  {
    assert trail[0] in trail && buf[|buf| - |trail|] == trail[0];
    assert trail[0] in buf;
  }

  lemma NothingIsZero(c: Cast, negative: bool)
    requires WfCast(c) && c.op.Decimal?
    ensures CodeOf(c, negative, "", "", None) == Some(0)
  {
    assert Number("") == 0 && KeptState(c, 0, "") == State(0, 0, 0);
    assert Leading(0, 0) == (0, 0);
  }

  lemma SignOnlyCasts(c: Cast, f: Form)
    requires WfCast(c) && c.op.Decimal? && f.SignOnly? && IsForm(f)
    ensures TextOf(f) != "" && !IsSpace(TextOf(f)[0]) && TryOf(c, TextOf(f), true) == ValueOf(c, f)
  {
    var buf, negative := TextOf(f), f.sign == "-";
    NoDigits(f.sign, f.trail, buf);
    assert Trimmed(buf) == buf && buf[1..] == f.trail;
    SpacesAreNoZeros(f.trail, buf[1..]);
    NothingCasts(false, f.sign, f.trail, buf, MeaningOf(c, negative));
    NothingIsZero(c, negative);
  }

  lemma RadixCasts(c: Cast, f: Form)
    requires f.Radix? && IsForm(f)
    ensures TextOf(f) != "" && !IsSpace(TextOf(f)[0]) && TryOf(c, TextOf(f), true) == ValueOf(c, f)
  {
    var buf, radix := TextOf(f), RadixOfMark(f.mark);
    var rest := buf[1..];
    assert Trimmed(buf) == buf && buf[0] == '0' && buf[1] == f.mark && rest[1..] == f.digits;
    assert rest[1..1] == "";
    RadixReads(rest, 1, radix, 0);
  }

  lemma NumeralTries(c: Cast, f: Form)
    requires c.op.Decimal? && f.Numeral? && IsForm(f)
    ensures TextOf(f) != "" && !IsSpace(TextOf(f)[0]) && TryOf(c, TextOf(f), true) == ValueOf(c, f)
  {
    var buf := TextOf(f);
    NumeralCasts(f.sign, f.whole, f.point, f.fraction, f.e, f.trail, buf, MeaningOf(c, f.sign == "-"));
    FollowedBy(f.e, f.trail);
    NoRadix(f.sign, f.whole, f.point, f.fraction, ExponentText(f.e) + f.trail);
    assert Trimmed(buf) == buf;
  }

  lemma TrimsTo(lead: string, buf: string, c: Cast)
    requires AllSpace(lead) && buf != "" && !IsSpace(buf[0])
    ensures TryOf(c, lead + buf, true) == TryOf(c, buf, true)
  {
    TrimsLead(lead, buf);
    assert Trimmed(buf) == buf;
  }

  /** Every form, with any spaces before it, is cast to its value. */
  lemma FormCasts(c: Cast, lead: string, f: Form)
    requires WfCast(c) && c.op.Decimal? && AllSpace(lead) && IsForm(f)
    ensures TryOf(c, lead + TextOf(f), true) == ValueOf(c, f)
  {
    match f {
      case Numeral(_, _, _, _, _, _) => NumeralTries(c, f);
      case Radix(_, _) => RadixCasts(c, f);
      case SignOnly(_, _) => SignOnlyCasts(c, f);
    }
    TrimsTo(lead, TextOf(f), c);
  }

  // ----- Nothing else is cast -----

  lemma {:induction false} LeadOf(t: string) returns (lead: string)
    ensures AllSpace(lead) && t == lead + Trimmed(t) && (Trimmed(t) != "" ==> !IsSpace(Trimmed(t)[0]))
    decreases |t|
  {
    lead := "";
    if t != "" && IsSpace(t[0]) {
      var rest := LeadOf(t[1..]);
      lead := [t[0]] + rest;
      assert t == [t[0]] + t[1..];
    }
  }

  lemma SignIs(buf: string, negative: bool, start: nat)
    requires buf != "" && (negative <==> buf[0] == '-') && start == StartOf(buf, negative)
    ensures start <= 1 && IsSign(buf[..start]) && (buf[..start] == "-" <==> negative)
  {
    assert start == 0 || buf[..start] == [buf[0]];
  }

  lemma Joined(buf: string, l: Layout)
    requires l.start <= l.point <= l.end <= |buf| && (l.point < l.end ==> buf[l.point] == '.')
    ensures buf == buf[..l.start] + Whole(buf, l) + (Behind(l.point < l.end, Fraction(buf, l)) + buf[l.end..])
  {
    assert Behind(l.point < l.end, Fraction(buf, l)) == buf[l.point..l.end];
    Cut(buf, l.point, l.end);
    Cut(buf, l.start, l.point);
    assert buf == buf[..l.start] + buf[l.start..];
    Assoc(buf[..l.start], Whole(buf, l), buf[l.point..]);
  }

  lemma Cut(buf: string, i: nat, j: nat)
    requires i <= j <= |buf|
    ensures buf[i..] == buf[i..j] + buf[j..]
  {
  }

  lemma LayoutMeans(buf: string, negative: bool, l: Layout)
    requires buf != "" && LayoutOf(buf, negative) == Some(l)
    ensures l.start == StartOf(buf, negative) && l.start <= l.point <= l.end <= |buf|
    ensures DigitsEnd(buf, l.start) == Some(l.point) && EndOf(buf, l.point) == Some(l.end)
  {
  }

  lemma RunsOf(buf: string, l: Layout)
    requires l.start <= l.point <= l.end <= |buf| && DigitsEnd(buf, l.start) == Some(l.point)
             && EndOf(buf, l.point) == Some(l.end)
    ensures Whole(buf, l) == "" || Separated(Whole(buf, l))
    ensures Fraction(buf, l) == "" || Separated(Fraction(buf, l))
  {
    RunParts(buf, l.start, l.point);
    if l.point < l.end {
      RunParts(buf, l.point + 1, l.end);
    }
  }

  /** The parts of a text with a layout. */
  lemma PartsOf(buf: string, negative: bool, l: Layout)
    requires buf != "" && (negative <==> buf[0] == '-') && LayoutOf(buf, negative) == Some(l)
    ensures IsSign(buf[..l.start]) && (buf[..l.start] == "-" <==> negative)
    ensures Whole(buf, l) == "" || Separated(Whole(buf, l))
    ensures Fraction(buf, l) == "" || Separated(Fraction(buf, l))
    ensures buf == buf[..l.start] + Whole(buf, l) + (Behind(l.point < l.end, Fraction(buf, l)) + buf[l.end..])
  {
    LayoutMeans(buf, negative, l);
    SignIs(buf, negative, l.start);
    Joined(buf, l);
    RunsOf(buf, l);
  }

  /** What stands behind the mark of an exponent that is read. */
  lemma ExponentParts(text: string) returns (sign: string, digits: string, point: bool, trail: string)
    requires text != "" && ExponentOf(text).Some?
    ensures IsSign(sign) && AllSpace(trail) && text == sign + digits + (Behind(point, "") + trail)
    ensures (digits == "" && !point && trail != "") || Separated(digits)
  {
    var negative := text[0] == '-';
    var l := LayoutOf(text, negative).value;
    PartsOf(text, negative, l);
    sign, digits, point, trail := text[..l.start], Whole(text, l), l.point < l.end, text[l.end..];
    assert Fraction(text, l) == "";
  }

  /** The exponent with these parts. */
  function ExponentFrom(mark: char, sign: string, digits: string, point: bool): Exponent {
    if digits == "" then Blank(mark, sign) else Exponent(mark, sign, digits, point)
  }

  lemma FromParts(mark: char, sign: string, digits: string, point: bool, trail: string)
    requires mark in "eE" && IsSign(sign) && ((digits == "" && !point && trail != "") || Separated(digits))
    ensures var e := ExponentFrom(mark, sign, digits, point);
            IsExponent(e, trail) && BehindMark(e) + trail == sign + digits + (Behind(point, "") + trail)
  {
    Assoc(sign + digits, Behind(point, ""), trail);
    if digits == "" {
      assert sign + digits == sign && Behind(point, "") + trail == trail;
    }
  }

  lemma ExponentIs(buf: string, end: nat) returns (e: Exponent, trail: string)
    requires end + 1 < |buf| && buf[end] in "eE" && ExponentOf(buf[end + 1..]).Some?
    ensures !e.NoExponent? && IsExponent(e, trail) && AllSpace(trail) && buf[end..] == ExponentText(e) + trail
  {
    var text, mark := buf[end + 1..], buf[end];
    var sign, digits, point, rest := ExponentParts(text);
    trail, e := rest, ExponentFrom(mark, sign, digits, point);
    FromParts(mark, sign, digits, point, trail);
    assert buf[end..] == [mark] + text;
    Assoc([mark], BehindMark(e), trail);
  }

  lemma NumeralIs(buf: string, negative: bool, l: Layout, e: Exponent, trail: string) returns (f: Form)
    requires buf != "" && (negative <==> buf[0] == '-') && LayoutOf(buf, negative) == Some(l) && Readable(false, buf, l)
    requires l.start < l.end && IsExponent(e, trail) && AllSpace(trail) && buf[l.end..] == ExponentText(e) + trail
    ensures IsForm(f) && TextOf(f) == buf
  {
    PartsOf(buf, negative, l);
    f := Numeral(buf[..l.start], Whole(buf, l), l.point < l.end, Fraction(buf, l), e, trail);
  }

  lemma SignOnlyIs(buf: string, negative: bool, l: Layout) returns (form: Form)
    requires buf != "" && !IsSpace(buf[0]) && (negative <==> buf[0] == '-') && LayoutOf(buf, negative) == Some(l)
    requires l.start == l.end && Ends(buf, l)
    ensures IsForm(form) && TextOf(form) == buf
  {
    SignIs(buf, negative, l.start);
    form := SignOnly(buf[..l.start], buf[l.end..]);
    assert l.end < |buf| && buf[l.end] in buf[l.end..];
    assert l.end != 0;
  }

  lemma ExponentForm(buf: string, negative: bool, l: Layout) returns (form: Form)
    requires buf != "" && (negative <==> buf[0] == '-') && LayoutOf(buf, negative) == Some(l) && Readable(false, buf, l)
    requires HasExponent(buf, l) && ExponentOf(buf[l.end + 1..]).Some?
    ensures IsForm(form) && TextOf(form) == buf
  {
    var e, trail := ExponentIs(buf, l.end);
    form := NumeralIs(buf, negative, l, e, trail);
  }

  lemma PlainForm(buf: string, negative: bool, l: Layout) returns (form: Form)
    requires buf != "" && (negative <==> buf[0] == '-') && LayoutOf(buf, negative) == Some(l) && Readable(false, buf, l)
    requires l.start < l.end && Ends(buf, l)
    ensures IsForm(form) && TextOf(form) == buf
  {
    assert AllSpace(buf[l.end..]) && ExponentText(NoExponent) + buf[l.end..] == buf[l.end..];
    form := NumeralIs(buf, negative, l, NoExponent, buf[l.end..]);
  }

  lemma LoopIsForm(buf: string, negative: bool, f: Meaning) returns (form: Form)
    requires buf != "" && !IsSpace(buf[0]) && (negative <==> buf[0] == '-')
             && CastWith(false, buf, negative, true, f).Some?
    ensures IsForm(form) && TextOf(form) == buf
  {
    var l := LayoutOf(buf, negative).value;
    if HasExponent(buf, l) {
      form := ExponentForm(buf, negative, l);
    } else if l.start < l.end {
      form := PlainForm(buf, negative, l);
    } else {
      form := SignOnlyIs(buf, negative, l);
    }
  }

  lemma RadixIsForm(c: Cast, buf: string) returns (form: Form)
    requires HasRadix(buf) && RadixOf(c, buf[1..], RadixOfMark(buf[1])).Some?
    ensures IsForm(form) && TextOf(form) == buf
  {
    var rest := buf[1..];
    assert rest[1..1] == "" && rest[0] == buf[1];
    RadixReads(rest, 1, RadixOfMark(buf[1]), 0);
    form := Radix(buf[1], rest[1..]);
    assert buf == "0" + [buf[1]] + rest[1..];
  }

  /** A text that is cast is one of the forms. */
  lemma CastIsForm(c: Cast, t: string) returns (lead: string, f: Form)
    requires c.op.Decimal? && TryOf(c, t, true).Some?
    ensures AllSpace(lead) && IsForm(f) && t == lead + TextOf(f)
  {
    lead := LeadOf(t);
    var buf := Trimmed(t);
    if buf[0] != '-' && HasRadix(buf) {
      f := RadixIsForm(c, buf);
    } else {
      f := LoopIsForm(buf, buf[0] == '-', MeaningOf(c, buf[0] == '-'));
    }
  }

  ghost predicate Spells(c: Cast, t: string, lead: string, f: Form, v: int) {
    AllSpace(lead) && IsForm(f) && t == lead + TextOf(f) && ValueOf(c, f) == Some(v)
  }

  /** For every text: it is cast to `v` if and only if it is a form whose value is `v`. */
  lemma CastsExactly(c: Cast, t: string, v: int)
    requires WfCast(c) && c.op.Decimal?
    ensures TryOf(c, t, true) == Some(v) <==> exists lead, f :: Spells(c, t, lead, f, v)
  {
    if TryOf(c, t, true) == Some(v) {
      var lead, f := CastIsForm(c, t);
      FormCasts(c, lead, f);
      assert Spells(c, t, lead, f, v);
    }
    if lead, f :| Spells(c, t, lead, f, v) {
      FormCasts(c, lead, f);
    }
  }

  // ----- Forms that are no numbers -----

  /** A sign with only spaces after it is cast to zero, a minus where negative values are. */
  lemma SignAloneIsZero(c: Cast, lead: string, sign: string, trail: string)
    requires WfCast(c) && c.op.Decimal? && AllSpace(lead) && (sign == "+" || sign == "-") && trail != ""
             && AllSpace(trail)
    ensures TryOf(c, lead + (sign + trail), true) == if sign == "-" && c.store.min == 0 then None else Some(0)
  {
    FormCasts(c, lead, SignOnly(sign, trail));
    assert (sign + trail)[1..] == trail;
    SpacesAreNoZeros(trail, (sign + trail)[1..]);
  }

  /** The number a form spells, rounded half away from zero, if it fits, its whole part fits
      the type it is accumulated in and its exponent 16 bits. */
  function Ideal(c: Cast, f: Form): Option<int>
    requires f.Numeral?
  {
    if PowerOf(f.e).Some? then Expected(c, f.sign == "-", f.whole, f.fraction, PowerOf(f.e).value) else None
  }

  /** The digits behind the point are read right: without an exponent where their count does
      not wrap, or does not round up wrapped; with a negative one always; else as
      `CastExact.ReadsRight` says. */
  predicate ReadRight(c: Cast, f: Form)
    requires f.Numeral?
  {
    var (d, n) := KeptOf(c, f.fraction);
    if f.e.NoExponent? then n < 65536 || !RoundsUp(d, n % 65536)
    else PowerOf(f.e).None? || PowerOf(f.e).value < 0 || ReadsRight(c, f.fraction, PowerOf(f.e).value)
  }

  lemma MeantExactly(c: Cast, f: Form)
    requires FractionCast(c) && f.Numeral?
    ensures var r := Meant(f.e, f.whole, f.fraction, MeaningOf(c, f.sign == "-"));
            && (ReadRight(c, f) ==> r == Ideal(c, f))
            && (Ideal(c, f).Some? ==> (r == Ideal(c, f) <==> ReadRight(c, f)))
  {
    FractionCastIsWide(c);
    var negative, x := f.sign == "-", PowerOf(f.e);
    if f.e.NoExponent? {
      PlainExactly(c, negative, f.whole, f.fraction);
    } else if x.Some? && x.value < 0 {
      NegativeExponent(c, negative, f.whole, f.fraction, x.value);
    } else if x.Some? {
      ExponentExactly(c, negative, f.whole, f.fraction, x.value);
    }
  }

  /** A number with spaces around it, a sign, separators, a fraction and an exponent that
      fits is cast to its value rounded half away from zero if and only if its fraction is
      read right; where it is, one that does not fit is refused. Both casts with fractions,
      fractions of any length and every exponent of 16 bits. */
  lemma NumbersCast(c: Cast, lead: string, f: Form)
    requires FractionCast(c) && AllSpace(lead) && f.Numeral? && IsForm(f) && !Refused(c, f)
    ensures ReadRight(c, f) ==> TryOf(c, lead + TextOf(f), true) == Ideal(c, f)
    ensures Ideal(c, f).Some? ==> (TryOf(c, lead + TextOf(f), true) == Ideal(c, f) <==> ReadRight(c, f))
  {
    FractionCastIsWide(c);
    FormCasts(c, lead, f);
    MeantExactly(c, f);
  }

  /** A number past the type that is cast: one with an exponent, not negative, that slips
      in. */
  predicate SlipsThrough(c: Cast, f: Form)
    requires f.Numeral?
  {
    var (d, n) := KeptOf(c, f.fraction);
    && !f.e.NoExponent? && PowerOf(f.e).Some? && PowerOf(f.e).value >= 0
    && SlipsIn(c, f.sign == "-", Number(f.whole), d, n, PowerOf(f.e).value)
  }

  /** A number that does not fit is refused if and only if it does not slip in. */
  lemma UnfitNumbers(c: Cast, lead: string, f: Form)
    requires FractionCast(c) && AllSpace(lead) && f.Numeral? && IsForm(f) && !Refused(c, f) && Ideal(c, f) == None
    ensures TryOf(c, lead + TextOf(f), true) == None <==> !SlipsThrough(c, f)
  {
    FractionCastIsWide(c);
    FormCasts(c, lead, f);
    UnfitMeant(c, f);
  }

  lemma UnfitMeant(c: Cast, f: Form)
    requires FractionCast(c) && f.Numeral? && Ideal(c, f) == None
    ensures Meant(f.e, f.whole, f.fraction, MeaningOf(c, f.sign == "-")) == None <==> !SlipsThrough(c, f)
  {
    FractionCastIsWide(c);
    var negative, x := f.sign == "-", PowerOf(f.e);
    if f.e.NoExponent? {
      PlainExactly(c, negative, f.whole, f.fraction);
    } else if x.Some? && x.value < 0 {
      NegativeExponent(c, negative, f.whole, f.fraction, x.value);
    } else if x.Some? {
      UnfitExactly(c, negative, f.whole, f.fraction, x.value);
    }
  }

  /** Up to 18 digits behind the point every number is read right. */
  lemma ShortIsRead(c: Cast, f: Form)
    requires FractionCast(c) && f.Numeral? && Count(f.fraction) <= 18
    ensures ReadRight(c, f)
  {
    FractionCastIsWide(c);
    var d, n := Number(f.fraction), Count(f.fraction);
    KeptFirst(c, f.fraction);
    ShortFits(c, d, n, 0);
    KeptAll(c, f.fraction);
    if !f.e.NoExponent? && PowerOf(f.e).Some? && PowerOf(f.e).value >= 0 {
      NothingRounds(n, PowerOf(f.e).value);
    }
  }

  /** An exponent without digits, where spaces follow, is taken for exponent zero. */
  lemma BlankExponentIsZero(c: Cast, lead: string, f: Form)
    requires WfCast(c) && c.op.Decimal? && AllSpace(lead) && f.Numeral? && IsForm(f) && f.e.Blank? && !Refused(c, f)
    ensures TryOf(c, lead + TextOf(f), true) == CodeOf(c, f.sign == "-", f.whole, f.fraction, Some(0))
  {
    FormCasts(c, lead, f);
  }

  /** A point behind the exponent's digits changes nothing. */
  lemma PointedExponent(c: Cast, lead: string, sign: string, whole: string, point: bool, fraction: string, e: Exponent,
          trail: string)
    requires WfCast(c) && c.op.Decimal? && AllSpace(lead) && IsSign(sign) && (sign == "-" ==> c.store.min < 0)
    requires IsNumber(whole, point, fraction) && e.Exponent? && IsExponent(e, trail) && AllSpace(trail)
    ensures TryOf(c, lead + TextOf(Numeral(sign, whole, point, fraction, e.(point := true), trail)), true) ==
            TryOf(c, lead + TextOf(Numeral(sign, whole, point, fraction, e.(point := false), trail)), true)
  {
    FormCasts(c, lead, Numeral(sign, whole, point, fraction, e.(point := true), trail));
    FormCasts(c, lead, Numeral(sign, whole, point, fraction, e.(point := false), trail));
  }
}
