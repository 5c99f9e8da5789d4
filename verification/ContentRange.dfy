/**
 `Range` and `Content-Range` headers (sections 14.1.2 and 14.4 of RFC 9110).

 Parsing and printing are functions on strings; the theorems are the round trip, the bounds
 every parsed value satisfies, and what it means for a response to be consistent with a request.
 */
module ContentRange {
  import opened Base

  datatype ByteRangeSpec = FromTo(first: U64, last: U64) | From(first: U64) | Suffix(len: U64)

  datatype ContentRange = Bytes(first: U64, last: U64, completeLength: Option<U64>) | Unsatisfied(total: U64)

  datatype ParseError =
    | Empty
    | UnsupportedUnit(unit: string)
    | Malformed
    | NumericOverflow
    | Reversed(first: U64, last: U64)
    | LastByteBeyondComplete(last: U64, completeLength: U64)

  datatype RangeMismatch =
    | NotSatisfied
    | WrongStart(requested: U64, returned: U64)
    | EndBeyondRequest(requestedLast: U64, returnedLast: U64)
    | UnverifiableSuffix

  /** Length arithmetic on such a value cannot overflow. */
  predicate WellFormed(v: ContentRange)
  {
    v.Bytes? ==> v.first <= v.last < U64_MAX && (v.completeLength.Some? ==> v.last < v.completeLength.value)
  }

  // ----- decimal numbers -----

  predicate IsDigit(c: char) { '0' <= c <= '9' }

  predicate AllDigits(s: string) { forall i :: 0 <= i < |s| ==> IsDigit(s[i]) }

  function DigitChar(d: nat): (c: char)
    requires d < 10
    ensures IsDigit(c) && DigitValue(c) == d
  {
    ['0', '1', '2', '3', '4', '5', '6', '7', '8', '9'][d]
  }

  function DigitValue(c: char): nat
    requires IsDigit(c)
  {
    (c as int) - ('0' as int)
  }

  function Digits(n: nat): (s: string)
    ensures s != [] && AllDigits(s)
  {
    if n < 10 then [DigitChar(n)] else Digits(n / 10) + [DigitChar(n % 10)]
  }

  function Value(s: string): nat
    requires AllDigits(s)
  {
    if s == [] then 0 else 10 * Value(s[..|s| - 1]) + DigitValue(s[|s| - 1])
  }

  lemma {:induction false} ValueOfDigits(n: nat)
    ensures Value(Digits(n)) == n
  {
    if n >= 10 {
      ValueOfDigits(n / 10);
      assert Digits(n)[..|Digits(n)| - 1] == Digits(n / 10);
    } else {
      assert Digits(n)[..0] == [];
    }
  }

  function ParseDecimal(s: string): Result<U64, ParseError>
  {
    if s == [] || !AllDigits(s) then Err(Malformed)
    else if Value(s) > U64_MAX then Err(NumericOverflow)
    else Ok(Value(s))
  }

  lemma ParseDigits(n: U64)
    ensures ParseDecimal(Digits(n)) == Ok(n)
  {
    ValueOfDigits(n);
  }

  // ----- scanning -----

  /** The characters `trim` removes. */
  predicate IsWhiteSpace(c: char)
  {
    var n := c as int;
    || 9 <= n <= 13 || n == 32 || n == 0x85 || n == 0xA0 || n == 0x1680 || 0x2000 <= n <= 0x200A
    || n == 0x2028 || n == 0x2029 || n == 0x202F || n == 0x205F || n == 0x3000
  }

  predicate IsAsciiWhiteSpace(c: char)
  {
    var n := c as int;
    n == 9 || n == 10 || n == 12 || n == 13 || n == 32
  }

  function TrimEnd(s: string): string
  {
    if s != [] && IsWhiteSpace(s[|s| - 1]) then TrimEnd(s[..|s| - 1]) else s
  }

  function TrimStart(s: string): string
  {
    if s != [] && IsWhiteSpace(s[0]) then TrimStart(s[1..]) else s
  }

  function SkipSpaces(s: string): string
  {
    if s != [] && s[0] == ' ' then SkipSpaces(s[1..]) else s
  }

  /** The parts before and after the first occurrence of `c`. */
  function SplitOnce(s: string, c: char): Option<(string, string)>
  {
    if s == [] then None
    else if s[0] == c then Some(([], s[1..]))
    else
      match SplitOnce(s[1..], c)
      case None => None
      case Some((a, b)) => Some(([s[0]] + a, b))
  }

  lemma {:induction false} SplitOnceAt(a: string, c: char, b: string)
    requires c !in a
    ensures SplitOnce(a + [c] + b, c) == Some((a, b))
  {
    var s := a + [c] + b;
    if a == [] {
      assert s[1..] == b;
    } else {
      assert s[1..] == a[1..] + [c] + b && s[0] == a[0];
      SplitOnceAt(a[1..], c, b);
      assert [a[0]] + a[1..] == a;
    }
  }

  function Lower(c: char): char
  {
    if 'A' <= c <= 'Z' then ((c as int) + 32) as char else c
  }

  predicate IsBytesUnit(s: string)
  {
    && |s| == 5 && Lower(s[0]) == 'b' && Lower(s[1]) == 'y' && Lower(s[2]) == 't'
    && Lower(s[3]) == 'e' && Lower(s[4]) == 's'
  }

  // ----- printing and parsing -----

  function PrintLength(length: Option<U64>): string
  {
    if length.Some? then Digits(length.value) else "*"
  }

  function PrintRange(v: ContentRange): string
  {
    if v.Bytes? then Digits(v.first) + ['-'] + Digits(v.last) else "*"
  }

  function LengthOf(v: ContentRange): Option<U64>
  {
    if v.Bytes? then v.completeLength else Some(v.total)
  }

  function Print(v: ContentRange): string
  {
    "bytes" + [' '] + (PrintRange(v) + ['/'] + PrintLength(LengthOf(v)))
  }

  function ParseLength(s: string): Result<Option<U64>, ParseError>
  {
    if s == "*" then Ok(None)
    else
      match ParseDecimal(s)
      case Err(e) => Err(e)
      case Ok(n) => Ok(Some(n))
  }

  function ParsePositions(s: string, length: Option<U64>): Result<ContentRange, ParseError>
  {
    match SplitOnce(s, '-')
    case None => Err(Malformed)
    case Some((rawFirst, rawLast)) =>
      var first, last := ParseDecimal(rawFirst), ParseDecimal(rawLast);
      if first.Err? then Err(first.error)
      else if last.Err? then Err(last.error)
      else if first.value > last.value then Err(Reversed(first.value, last.value))
      else if last.value == U64_MAX then Err(NumericOverflow)
      else if length.Some? && last.value >= length.value then Err(LastByteBeyondComplete(last.value, length.value))
      else Ok(Bytes(first.value, last.value, length))
  }

  function ParseParts(range: string, length: string): Result<ContentRange, ParseError>
  {
    if range == [] || length == [] then Err(Malformed)
    else if (exists i | 0 <= i < |range| :: IsAsciiWhiteSpace(range[i]))
         || (exists i | 0 <= i < |length| :: IsAsciiWhiteSpace(length[i])) then Err(Malformed)
    else
      match ParseLength(length)
      case Err(e) => Err(e)
      case Ok(complete) =>
        if range == "*" then (if complete.Some? then Ok(Unsatisfied(complete.value)) else Err(Malformed))
        else ParsePositions(range, complete)
  }

  function Parse(raw: string): Result<ContentRange, ParseError>
  {
    var s := TrimEnd(TrimStart(raw));
    if s == [] then Err(Empty)
    else
      match SplitOnce(s, ' ')
      case None => Err(Malformed)
      case Some((unit, rest)) =>
        if !IsBytesUnit(unit) then Err(UnsupportedUnit(unit))
        else
          match SplitOnce(SkipSpaces(rest), '/')
          case None => Err(Malformed)
          case Some((range, length)) => ParseParts(range, length)
  }

  /** Whatever parses is well formed. */
  lemma ParsedWellFormed(raw: string)
    ensures Parse(raw).Ok? ==> WellFormed(Parse(raw).value)
  {
  }

  predicate Plain(s: string) { forall i :: 0 <= i < |s| ==> IsDigit(s[i]) || s[i] == '-' || s[i] == '*' }

  lemma PrintedPlain(v: ContentRange)
    ensures Plain(PrintRange(v)) && Plain(PrintLength(LengthOf(v))) && PrintRange(v) != []
            && PrintLength(LengthOf(v)) != []
  {
  }

  lemma PlainScans(s: string)
    requires Plain(s) && s != []
    ensures ' ' !in s && '/' !in s && !IsWhiteSpace(s[0]) && !IsWhiteSpace(s[|s| - 1])
    ensures forall i :: 0 <= i < |s| ==> !IsAsciiWhiteSpace(s[i])
  {
  }

  lemma PrintedPositions(first: U64, last: U64)
    ensures SplitOnce(Digits(first) + ['-'] + Digits(last), '-') == Some((Digits(first), Digits(last)))
  {
    SplitOnceAt(Digits(first), '-', Digits(last));
  }

  lemma PrintedParts(v: ContentRange)
    requires WellFormed(v)
    ensures ParseParts(PrintRange(v), PrintLength(LengthOf(v))) == Ok(v)
  {
    hide Digits, ParseDecimal, SplitOnce;
    PrintedPlain(v);
    PlainScans(PrintRange(v));
    PlainScans(PrintLength(LengthOf(v)));
    PrintedLength(LengthOf(v));
    if v.Bytes? {
      PrintedPositions(v.first, v.last);
      ParseDigits(v.first);
      ParseDigits(v.last);
      assert PrintRange(v)[|Digits(v.first)|] == '-';
    }
  }

  lemma PrintedLength(length: Option<U64>)
    ensures ParseLength(PrintLength(length)) == Ok(length)
  {
    if length.Some? {
      ParseDigits(length.value);
      assert IsDigit(Digits(length.value)[0]);
    }
  }

  /** Printing and parsing back gives the value again. */
  lemma PrintParse(v: ContentRange)
    requires WellFormed(v)
    ensures Parse(Print(v)) == Ok(v)
  {
    hide Digits, PrintRange, PrintLength, ParseParts, SplitOnce, TrimStart, TrimEnd;
    var range, length := PrintRange(v), PrintLength(LengthOf(v));
    PrintedPlain(v);
    PlainScans(range);
    PlainScans(length);
    var rest := range + ['/'] + length;
    var s := Print(v);
    NotTrimmed(s);
    SplitOnceAt("bytes", ' ', rest);
    SplitOnceAt(range, '/', length);
    assert SkipSpaces(rest) == rest;
    PrintedParts(v);
  }

  lemma NotTrimmed(s: string)
    requires s != [] && !IsWhiteSpace(s[0]) && !IsWhiteSpace(s[|s| - 1])
    ensures TrimEnd(TrimStart(s)) == s
  {
  }

  // ----- consistency with the request -----

  function Len(v: ContentRange): (n: Option<nat>)
    requires WellFormed(v)
    ensures n.Some? <==> v.Bytes?
    ensures n.Some? ==> 0 < n.value <= U64_MAX
  {
    if v.Bytes? then Some(v.last - v.first + 1) else None
  }

  function IsConsistentWith(v: ContentRange, requested: ByteRangeSpec): Result<Unit, RangeMismatch>
    requires WellFormed(v)
  {
    if v.Unsatisfied? then Err(NotSatisfied)
    else
      match requested
      case FromTo(first, last) =>
        if v.first != first then Err(WrongStart(first, v.first))
        else if v.last > last then Err(EndBeyondRequest(last, v.last))
        else Ok(Unit)
      case From(first) => if v.first != first then Err(WrongStart(first, v.first)) else Ok(Unit)
      case Suffix(len) =>
        if v.completeLength.None? then Err(UnverifiableSuffix)
        else
          var total := v.completeLength.value;
          var first := if total < len then 0 else total - len;
          if v.first != first then Err(WrongStart(first, v.first))
          else if v.last != total - 1 then Err(EndBeyondRequest(total - 1, v.last))
          else Ok(Unit)
  }

  /** Byte `b` of a representation of `total` bytes was asked for. */
  predicate Wanted(requested: ByteRangeSpec, total: nat, b: nat)
  {
    && b < total
    && match requested
       case FromTo(first, last) => first <= b <= last
       case From(first) => first <= b
       case Suffix(len) => total - len <= b
  }

  predicate Returned(v: ContentRange, b: nat) { v.Bytes? && v.first <= b <= v.last }

  /**
   A response whose total length is stated is consistent exactly when it begins with the first
   byte asked for and encloses only bytes asked for; a suffix must be enclosed whole.
   */
  lemma ConsistentMeans(v: ContentRange, requested: ByteRangeSpec)
    requires WellFormed(v) && v.Bytes? && v.completeLength.Some?
    ensures var total := v.completeLength.value;
            IsConsistentWith(v, requested).Ok? <==>
            && Wanted(requested, total, v.first) && (forall b: nat :: b < v.first ==> !Wanted(requested, total, b))
            && (forall b: nat :: Returned(v, b) ==> Wanted(requested, total, b))
            && (requested.Suffix? ==> forall b: nat :: Wanted(requested, total, b) ==> Returned(v, b))
  {
    var total := v.completeLength.value;
    assert Returned(v, v.first) && Returned(v, v.last);
    match requested
    case FromTo(first, _) =>
      assert first < v.first ==> !Wanted(requested, total, v.first) || Wanted(requested, total, first);
    case From(first) => assert first < v.first ==> Wanted(requested, total, first);
    case Suffix(len) =>
      var first: nat := if total < len then 0 else total - len;
      assert Wanted(requested, total, total - 1) <==> len > 0;
      assert first < v.first ==> Wanted(requested, total, first);
  }

  /** Without a stated total the end of the representation is unknown, and a suffix is refused. */
  lemma UnstatedTotal(v: ContentRange, requested: ByteRangeSpec)
    requires WellFormed(v) && v.Bytes? && v.completeLength.None?
    ensures requested.Suffix? ==> IsConsistentWith(v, requested) == Err(UnverifiableSuffix)
    ensures IsConsistentWith(v, requested).Ok? ==> !requested.Suffix? && v.first == requested.first
  {
  }

  /** The pool's test: the response is exactly the grant `[lo, hi)` of the representation. */
  predicate MatchesGrant(v: Option<ContentRange>, lo: nat, hi: nat, total: nat)
  {
    v.Some? && v.value.Bytes? && v.value.completeLength == Some(total) && v.value.first == lo && v.value.last + 1 == hi
  }

  lemma MatchesGrantExactly(v: ContentRange, lo: U64, hi: U64, total: U64)
    requires WellFormed(v) && lo < hi
    ensures MatchesGrant(Some(v), lo, hi, total) <==>
            && v == Bytes(lo, hi - 1, Some(total)) && Len(v) == Some(hi - lo)
            && IsConsistentWith(v, FromTo(lo, hi - 1)).Ok?
  {
  }

  // ----- proof that a range was served -----

  datatype RangeProofError =
    | StatusNot206(status: nat)
    | UnexpectedContentEncoding(encoding: string)
    | ContentRangeAbsent
    | ContentRangeInvalid(parse: ParseError)
    | ContentRangeInconsistent(mismatch: RangeMismatch)
    | TotalLengthUnknown
    | BodyLengthMismatch(expected: nat, actual: nat)

  function Trim(s: string): string { TrimEnd(TrimStart(s)) }

  predicate SameIgnoringCase(a: string, b: string)
  {
    |a| == |b| && forall i :: 0 <= i < |a| ==> Lower(a[i]) == Lower(b[i])
  }

  /** The body is not the bytes of the representation themselves. */
  predicate Encoded(encoding: Option<string>)
  {
    encoding.Some? && Trim(encoding.value) != "" && !SameIgnoringCase(Trim(encoding.value), "identity")
  }

  /** What the headers of a ranged response must say before a byte of its body is accepted. */
  function ProveRange(requested: ByteRangeSpec, status: nat, header: Option<string>, encoding: Option<string>,
                      bodyLen: nat): Result<ContentRange, RangeProofError>
  {
    if status != 206 then Err(StatusNot206(status))
    else if Encoded(encoding) then Err(UnexpectedContentEncoding(Trim(encoding.value)))
    else if header.None? then Err(ContentRangeAbsent)
    else
      ParsedWellFormed(header.value);
      match Parse(header.value)
      case Err(e) => Err(ContentRangeInvalid(e))
      case Ok(v) =>
        match IsConsistentWith(v, requested)
        case Err(e) => Err(ContentRangeInconsistent(e))
        case Ok(_) =>
          if v.completeLength.None? then Err(TotalLengthUnknown)
          else if bodyLen != Len(v).value then Err(BodyLengthMismatch(Len(v).value, bodyLen))
          else Ok(v)
  }

  /**
   A response proves a range exactly when it is an unencoded 206 that names a part of a
   representation of known length, as long as its body, beginning with the first byte asked for
   and enclosing only bytes asked for, and all of them for a suffix.
   */
  lemma ProvenMeans(requested: ByteRangeSpec, status: nat, header: Option<string>, encoding: Option<string>,
                    bodyLen: nat, v: ContentRange)
    ensures ProveRange(requested, status, header, encoding, bodyLen) == Ok(v) <==>
            && status == 206 && !Encoded(encoding) && header.Some? && Parse(header.value) == Ok(v)
            && v.Bytes? && v.completeLength.Some? && bodyLen == v.last - v.first + 1
            && var total := v.completeLength.value;
               && Wanted(requested, total, v.first) && (forall b: nat :: b < v.first ==> !Wanted(requested, total, b))
               && (forall b: nat :: Returned(v, b) ==> Wanted(requested, total, b))
               && (requested.Suffix? ==> forall b: nat :: Wanted(requested, total, b) ==> Returned(v, b))
    ensures ProveRange(requested, status, header, encoding, bodyLen) == Ok(v) ==>
              && v.Bytes? && v.completeLength.Some? && v.first <= v.last < v.completeLength.value
              && (!requested.Suffix? ==> v.first == requested.first)
              && (requested.FromTo? ==> v.last <= requested.last)
  {
    hide Parse, Encoded;
    if header.Some? && Parse(header.value) == Ok(v) {
      ParsedWellFormed(header.value);
      if v.Bytes? && v.completeLength.Some? {
        ConsistentMeans(v, requested);
      }
    }
  }
}
