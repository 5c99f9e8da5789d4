/**
 The `Content-Range` headers that are understood, character by character (section 14.4 of RFC 9110).

 A header is accepted exactly if it is some spelling of the value: white space around it, the unit in
 any case, one space or more, and numbers of digits only. A spelling whose numbers make no range is
 refused, and the error has the numbers.
 */
module RangeGrammar {
  import opened Base
  import opened ContentRange

  ghost predicate White(s: string) { forall i :: 0 <= i < |s| ==> IsWhiteSpace(s[i]) }

  ghost predicate Blank(s: string) { forall i :: 0 <= i < |s| ==> s[i] == ' ' }

  ghost predicate Numeral(s: string, n: nat) { s != [] && AllDigits(s) && Value(s) == n }

  /** The pieces of a header, in order; `first` and `last` are unused where there is no range. */
  datatype Spelling =
    Spelling(before: string, unit: string, gap: string, first: string, last: string, length: string, after: string)

  ghost predicate Framed(raw: string, x: Spelling, range: string)
  {
    && raw == x.before + (x.unit + x.gap + (range + ['/'] + x.length)) + x.after
    && White(x.before) && White(x.after) && SameIgnoringCase(x.unit, "bytes") && x.gap != [] && Blank(x.gap)
  }

  /** `raw` says `v` as `x` spells it. */
  ghost predicate Spells(raw: string, x: Spelling, v: ContentRange)
  {
    match v
    case Unsatisfied(total) => Framed(raw, x, "*") && Numeral(x.length, total)
    case Bytes(first, last, complete) =>
      && Framed(raw, x, x.first + ['-'] + x.last) && Numeral(x.first, first) && Numeral(x.last, last)
      && if complete.Some? then Numeral(x.length, complete.value) else x.length == "*"
  }

  // ----- scanning -----

  lemma {:induction false} TrimsStart(w: string, s: string)
    requires White(w) && s != [] && !IsWhiteSpace(s[0])
    ensures TrimStart(w + s) == s
  {
    if w == [] {
      assert w + s == s;
    } else {
      assert (w + s)[1..] == w[1..] + s && (w + s)[0] == w[0];
      TrimsStart(w[1..], s);
    }
  }

  lemma {:induction false} TrimsEnd(s: string, w: string)
    requires White(w) && s != [] && !IsWhiteSpace(s[|s| - 1])
    ensures TrimEnd(s + w) == s
  {
    if w == [] {
      assert s + w == s;
    } else {
      var n := |w| - 1;
      assert (s + w)[..|s + w| - 1] == s + w[..n] && (s + w)[|s + w| - 1] == w[n];
      TrimsEnd(s, w[..n]);
    }
  }

  lemma {:induction false} TrimmedStart(s: string) returns (w: string)
    ensures s == w + TrimStart(s) && White(w)
  {
    hide IsWhiteSpace;
    if s != [] && IsWhiteSpace(s[0]) {
      var more := TrimmedStart(s[1..]);
      w := [s[0]] + more;
      assert s == [s[0]] + s[1..] == [s[0]] + (more + TrimStart(s));
    } else {
      w := [];
    }
  }

  lemma {:induction false} TrimmedEnd(s: string) returns (w: string)
    ensures s == TrimEnd(s) + w && White(w)
  {
    hide IsWhiteSpace;
    if s != [] && IsWhiteSpace(s[|s| - 1]) {
      var more := TrimmedEnd(s[..|s| - 1]);
      w := more + [s[|s| - 1]];
      assert s == s[..|s| - 1] + [s[|s| - 1]];
    } else {
      w := [];
    }
  }

  lemma {:induction false} SkipsBlanks(w: string, s: string)
    requires Blank(w) && (s != [] ==> s[0] != ' ')
    ensures SkipSpaces(w + s) == s
  {
    if w == [] {
      assert w + s == s;
    } else {
      assert (w + s)[1..] == w[1..] + s && (w + s)[0] == w[0];
      SkipsBlanks(w[1..], s);
    }
  }

  lemma {:induction false} Skipped(s: string) returns (w: string)
    ensures s == w + SkipSpaces(s) && Blank(w)
  {
    if s != [] && s[0] == ' ' {
      var more := Skipped(s[1..]);
      w := [s[0]] + more;
      assert s == [s[0]] + s[1..];
    } else {
      w := [];
    }
  }

  lemma {:induction false} SplitMeans(s: string, c: char)
    ensures SplitOnce(s, c).Some? ==>
              var (a, b) := SplitOnce(s, c).value; s == a + [c] + b && c !in a
  {
    if s != [] && s[0] != c {
      SplitMeans(s[1..], c);
      assert s == [s[0]] + s[1..];
    }
  }

  // ----- a spelling is read as what it spells -----

  lemma UnitIs(unit: string)
    ensures IsBytesUnit(unit) <==> SameIgnoringCase(unit, "bytes")
    ensures IsBytesUnit(unit) ==> |unit| == 5 && ' ' !in unit && !IsWhiteSpace(unit[0])
  {
    var b := "bytes";
    assert |b| == 5 && b[0] == 'b' && b[1] == 'y' && b[2] == 't' && b[3] == 'e' && b[4] == 's';
  }

  /** Whatever the frame holds, reading it comes down to reading the range and the length. */
  lemma FrameRead(raw: string, x: Spelling, range: string)
    requires Framed(raw, x, range) && Plain(range) && range != [] && Plain(x.length) && x.length != []
    ensures Parse(raw) == ParseParts(range, x.length)
  {
    hide TrimStart, TrimEnd, SplitOnce, SkipSpaces, ParseParts, IsBytesUnit, SameIgnoringCase, Plain;
    PlainScans(range);
    PlainScans(x.length);
    UnitIs(x.unit);
    var rest := range + ['/'] + x.length;
    var core, more := x.unit + x.gap + rest, x.gap[1..];
    assert core[0] == x.unit[0] && core[|core| - 1] == x.length[|x.length| - 1];
    assert raw == x.before + (core + x.after);
    TrimsStart(x.before, core + x.after);
    TrimsEnd(core, x.after);
    assert core == x.unit + [' '] + (more + rest);
    SplitOnceAt(x.unit, ' ', more + rest);
    SkipsBlanks(more, rest);
    SplitOnceAt(range, '/', x.length);
  }

  lemma NumeralPlain(s: string, n: nat)
    requires Numeral(s, n)
    ensures Plain(s) && s != [] && '-' !in s && s != "*"
    ensures n <= U64_MAX ==> ParseDecimal(s) == Ok(n)
    ensures n > U64_MAX ==> ParseDecimal(s) == Err(NumericOverflow)
  {
    assert IsDigit(s[0]) && !IsDigit("*"[0]);
  }

  /** What a header of the form `first-last/length` is read as, whatever the numbers. */
  lemma Judged(raw: string, x: Spelling, first: nat, last: nat, length: nat)
    requires Framed(raw, x, x.first + ['-'] + x.last) && Numeral(x.first, first) && Numeral(x.last, last)
    requires Numeral(x.length, length)
    ensures Parse(raw) ==
            if length > U64_MAX || first > U64_MAX || last > U64_MAX then Err(NumericOverflow)
            else if first > last then Err(Reversed(first, last))
            else if last == U64_MAX then Err(NumericOverflow)
            else if last >= length then Err(LastByteBeyondComplete(last, length))
            else Ok(Bytes(first, last, Some(length)))
  {
    hide Parse, SplitOnce, ParseDecimal, Numeral;
    NumeralPlain(x.first, first);
    NumeralPlain(x.last, last);
    NumeralPlain(x.length, length);
    var range := x.first + ['-'] + x.last;
    FrameRead(raw, x, range);
    PlainScans(range);
    PlainScans(x.length);
    SplitOnceAt(x.first, '-', x.last);
    assert range[|x.first|] == '-';
  }

  lemma SpelledParses(raw: string, x: Spelling, v: ContentRange)
    requires WellFormed(v) && Spells(raw, x, v)
    ensures Parse(raw) == Ok(v)
  {
    hide Parse, SplitOnce, ParseDecimal, Numeral, Framed;
    if v.Unsatisfied? {
      NumeralPlain(x.length, v.total);
      FrameRead(raw, x, "*");
      PlainScans(x.length);
    } else if v.completeLength.Some? {
      Judged(raw, x, v.first, v.last, v.completeLength.value);
    } else {
      NumeralPlain(x.first, v.first);
      NumeralPlain(x.last, v.last);
      var range := x.first + ['-'] + x.last;
      FrameRead(raw, x, range);
      PlainScans(range);
      SplitOnceAt(x.first, '-', x.last);
      assert range[|x.first|] == '-';
    }
  }

  // ----- whatever is read is spelled -----

  lemma ReadFramed(raw: string) returns (x: Spelling, range: string)
    requires Parse(raw).Ok?
    ensures Framed(raw, x, range) && Parse(raw) == ParseParts(range, x.length)
  {
    hide TrimStart, TrimEnd, SplitOnce, SkipSpaces, ParseParts, IsBytesUnit, SameIgnoringCase;
    var before := TrimmedStart(raw);
    var after := TrimmedEnd(TrimStart(raw));
    var s := TrimEnd(TrimStart(raw));
    SplitMeans(s, ' ');
    var (unit, rest) := SplitOnce(s, ' ').value;
    UnitIs(unit);
    var more := Skipped(rest);
    SplitMeans(SkipSpaces(rest), '/');
    var (r, length) := SplitOnce(SkipSpaces(rest), '/').value;
    x, range := Spelling(before, unit, [' '] + more, "", "", length, after), r;
    assert s == unit + ([' '] + more) + (r + ['/'] + length);
  }

  lemma ParsedSpelled(raw: string, v: ContentRange) returns (x: Spelling)
    requires Parse(raw) == Ok(v)
    ensures Spells(raw, x, v)
  {
    hide Parse, SplitOnce, SameIgnoringCase, White, Blank;
    var y, range := ReadFramed(raw);
    if v.Unsatisfied? {
      x := y;
    } else {
      SplitMeans(range, '-');
      var (first, last) := SplitOnce(range, '-').value;
      x := y.(first := first, last := last);
    }
  }

  /** A header is accepted, with this value, exactly if it is a spelling of it. */
  lemma ParseExact(raw: string, v: ContentRange)
    ensures Parse(raw) == Ok(v) <==> WellFormed(v) && exists x :: Spells(raw, x, v)
  {
    hide Parse, Spells;
    if Parse(raw) == Ok(v) {
      var x := ParsedSpelled(raw, v);
      ParsedWellFormed(raw);
      assert Spells(raw, x, v);
    }
    if WellFormed(v) && exists x :: Spells(raw, x, v) {
      var x :| Spells(raw, x, v);
      SpelledParses(raw, x, v);
    }
  }

  // ----- content encodings -----

  /** A body is taken as it is exactly if no encoding is named, or `identity` in any case. */
  lemma EncodedExact(encoding: string)
    ensures !Encoded(Some(encoding)) <==>
            exists before, name, after ::
              && encoding == before + name + after && White(before) && White(after)
              && (name == "" || SameIgnoringCase(name, "identity"))
    ensures !Encoded(None)
  {
    hide TrimStart, TrimEnd, SameIgnoringCase;
    if !Encoded(Some(encoding)) {
      var before := TrimmedStart(encoding);
      var after := TrimmedEnd(TrimStart(encoding));
      assert encoding == before + Trim(encoding) + after;
    }
    if before, name, after :| encoding == before + name + after && White(before) && White(after)
                              && (name == "" || SameIgnoringCase(name, "identity"))
    {
      TrimmedName(encoding, before, name, after);
    }
  }

  lemma TrimmedName(encoding: string, before: string, name: string, after: string)
    requires encoding == before + name + after && White(before) && White(after)
    requires name == "" || SameIgnoringCase(name, "identity")
    ensures Trim(encoding) == name
  {
    hide TrimStart, TrimEnd;
    if name == "" {
      assert encoding == before + after;
      AllTrimmed(encoding);
    } else {
      assert "identity"[0] == 'i' && "identity"[7] == 'y';
      assert encoding == before + (name + after);
      TrimsStart(before, name + after);
      TrimsEnd(name, after);
    }
  }

  lemma {:induction false} AllTrimmed(s: string)
    requires White(s)
    ensures TrimStart(s) == "" && TrimEnd(TrimStart(s)) == ""
  {
    if s != [] {
      AllTrimmed(s[1..]);
    }
  }
}
