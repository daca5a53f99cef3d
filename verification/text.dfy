/**
 * The string handling the file registry relies on: `str::split` on a single
 * character, `str::lines`, `u64::from_str` and hex decoding with an optional
 * `0x` prefix, each with the encoder it inverts.
 */
module Text {
  import opened Wrappers
  import opened Common

  // ---------------------------------------------------------------------------
  // split / join
  // ---------------------------------------------------------------------------

  /** The pieces joined back with `sep` between them. */
  function Join(parts: seq<string>, sep: char): string
    requires |parts| >= 1
  {
    if |parts| == 1 then parts[0] else parts[0] + [sep] + Join(parts[1..], sep)
  }

  /** `s.split(sep).collect()`: the maximal runs between separators, empty runs included. */
  function Split(s: string, sep: char): (parts: seq<string>)
    ensures |parts| >= 1
    ensures forall k | 0 <= k < |parts| :: sep !in parts[k]
    ensures Join(parts, sep) == s
  {
    if |s| == 0 then [""]
    else
      var rest := Split(s[1..], sep);
      if s[0] == sep then
        assert ([""] + rest)[1..] == rest;
        [""] + rest
      else
        var parts := [[s[0]] + rest[0]] + rest[1..];
        assert parts[1..] == rest[1..];
        assert s == [s[0]] + s[1..];
        parts
  }

  /** Splitting undoes joining pieces that do not contain the separator. */
  lemma {:induction false} SplitJoin(parts: seq<string>, sep: char)
    requires |parts| >= 1
    requires forall k | 0 <= k < |parts| :: sep !in parts[k]
    ensures Split(Join(parts, sep), sep) == parts
  {
    if |parts| == 1 {
      SplitPiece(parts[0], sep);
    } else {
      SplitJoin(parts[1..], sep);
      SplitPrefix(parts[0], Join(parts[1..], sep), sep);
      assert parts == [parts[0]] + parts[1..];
    }
  }

  /** A piece without the separator splits into itself. */
  lemma {:induction false} SplitPiece(p: string, sep: char)
    requires sep !in p
    ensures Split(p, sep) == [p]
  {
    if |p| > 0 {
      SplitPiece(p[1..], sep);
      assert [p[0]] + p[1..] == p;
    }
  }

  /** Splitting `p + sep + t` puts `p` in front of the pieces of `t`. */
  lemma {:induction false} SplitPrefix(p: string, t: string, sep: char)
    requires sep !in p
    ensures Split(p + [sep] + t, sep) == [p] + Split(t, sep)
  {
    if |p| == 0 {
      assert p + [sep] + t == [sep] + t;
      assert ([sep] + t)[1..] == t;
    } else {
      assert (p + [sep] + t)[1..] == p[1..] + [sep] + t;
      SplitPrefix(p[1..], t, sep);
      assert [p[0]] + p[1..] == p;
    }
  }

  // ---------------------------------------------------------------------------
  // lines
  // ---------------------------------------------------------------------------

  /** Drops one trailing carriage return. */
  function StripCr(line: string): string {
    if |line| > 0 && line[|line| - 1] == '\r' then line[..|line| - 1] else line
  }

  /**
   * The lines made of the pieces of a text split at line feeds: a final
   * empty piece, left by a trailing line feed, is no line, and a piece loses
   * a trailing carriage return exactly when a line feed followed it.
   */
  function LinesOfPieces(pieces: seq<string>): (ls: seq<string>)
    requires |pieces| >= 1
    ensures |ls| == if pieces[|pieces| - 1] == "" then |pieces| - 1 else |pieces|
    ensures forall k | 0 <= k < |ls| :: ls[k] == if k < |pieces| - 1 then StripCr(pieces[k]) else pieces[k]
  {
    var kept := if pieces[|pieces| - 1] == "" then pieces[..|pieces| - 1] else pieces;
    seq(|kept|, k requires 0 <= k < |kept| => if k < |pieces| - 1 then StripCr(kept[k]) else kept[k])
  }

  /**
   * `BufRead::lines`: the text split at line feeds, without a final empty
   * line when the text ends with a line feed. A carriage return is removed
   * only together with the line feed after it, so an unterminated last line
   * keeps a trailing carriage return.
   */
  function Lines(text: string): (ls: seq<string>)
    ensures forall k | 0 <= k < |ls| :: '\n' !in ls[k]
    ensures |text| == 0 ==> ls == []
    ensures |text| > 0 ==> ls == LinesOfPieces(Split(text, '\n'))
  {
    if |text| == 0 then [] else LinesOfPieces(Split(text, '\n'))
  }

  /** Lines written each with a terminating line feed read back as themselves. */
  lemma LinesOfTerminated(ls: seq<string>)
    requires |ls| >= 1
    requires forall k | 0 <= k < |ls| :: '\n' !in ls[k] && (|ls[k]| == 0 || ls[k][|ls[k]| - 1] != '\r')
    ensures Lines(Join(ls + [""], '\n')) == ls
  {
    assert forall k | 0 <= k < |ls + [""]| :: '\n' !in (ls + [""])[k];
    SplitJoin(ls + [""], '\n');
    JoinNonEmpty(ls + [""], '\n');
    PiecesWithoutCr(ls + [""]);
  }

  /**
   * Lines joined without a final line feed read back as themselves; the last
   * line may end in a carriage return, which is kept.
   */
  lemma LinesOfUnterminated(ls: seq<string>)
    requires |ls| >= 1 && |ls[|ls| - 1]| > 0
    requires forall k | 0 <= k < |ls| :: '\n' !in ls[k]
    requires forall k | 0 <= k < |ls| - 1 :: |ls[k]| == 0 || ls[k][|ls[k]| - 1] != '\r'
    ensures Lines(Join(ls, '\n')) == ls
  {
    SplitJoin(ls, '\n');
    JoinKeepsLast(ls, '\n');
    PiecesWithoutCr(ls);
  }

  /**
   * Pieces none of which, the last one apart, ends in a carriage return
   * are their own lines, bar a final empty piece.
   */
  lemma PiecesWithoutCr(pieces: seq<string>)
    requires |pieces| >= 1
    requires forall k | 0 <= k < |pieces| - 1 :: |pieces[k]| == 0 || pieces[k][|pieces[k]| - 1] != '\r'
    ensures LinesOfPieces(pieces) == if pieces[|pieces| - 1] == "" then pieces[..|pieces| - 1] else pieces
  {
    assert forall k | 0 <= k < |pieces| - 1 :: StripCr(pieces[k]) == pieces[k];
  }

  /** A join with a non-empty last piece is non-empty. */
  lemma {:induction false} JoinKeepsLast(parts: seq<string>, sep: char)
    requires |parts| >= 1 && |parts[|parts| - 1]| > 0
    ensures |Join(parts, sep)| > 0
  {
    if |parts| > 1 {
      JoinKeepsLast(parts[1..], sep);
    }
  }

  /** A last line without its line feed keeps its carriage return. */
  lemma UnterminatedCrExample()
    ensures Lines("a\r") == ["a\r"]
    ensures Lines("a\r\n") == ["a"]
  {
    SplitPiece("a\r", '\n');
    SplitPrefix("a\r", "", '\n');
    SplitPiece("", '\n');
    assert "a\r\n" == "a\r" + ['\n'] + "";
  }

  lemma JoinNonEmpty(parts: seq<string>, sep: char)
    requires |parts| >= 2
    ensures |Join(parts, sep)| > 0
  {
  }

  // ---------------------------------------------------------------------------
  // u64 parsing
  // ---------------------------------------------------------------------------

  predicate IsDigit(ch: char) {
    '0' <= ch <= '9'
  }

  function DigitValue(ch: char): nat
    requires IsDigit(ch)
  {
    (ch as int) - ('0' as int)
  }

  /** The number a string of decimal digits denotes, most significant first. */
  function DecimalValue(ds: string): nat
    requires forall k | 0 <= k < |ds| :: IsDigit(ds[k])
  {
    if |ds| == 0 then 0 else 10 * DecimalValue(ds[..|ds| - 1]) + DigitValue(ds[|ds| - 1])
  }

  /**
   * `u64::from_str`: an optional `+` that is not the whole string, then one
   * or more decimal digits denoting a value below 2^64. No sign other than
   * `+`, no whitespace.
   */
  function ParseU64(s: string): (r: Option<U64>)
    ensures r.Some? ==> |s| > 0
    ensures r.Some? ==> forall k | 0 <= k < |s| :: IsDigit(s[k]) || (k == 0 && s[k] == '+')
    ensures var ds := if |s| > 0 && s[0] == '+' then s[1..] else s;
      && (r.Some? <==> |ds| > 0 && (forall k | 0 <= k < |ds| :: IsDigit(ds[k])) && DecimalValue(ds) < U64_LIMIT)
      && (r.Some? ==> r.value == DecimalValue(ds))
  {
    if |s| == 0 || s == "+" then None
    else
      var ds := if s[0] == '+' then s[1..] else s;
      if forall k | 0 <= k < |ds| :: IsDigit(ds[k]) then
        var v := DecimalValue(ds);
        if v < U64_LIMIT then Some(v) else None
      else None
  }

  function Digit(d: nat): (ch: char)
    requires d < 10
    ensures IsDigit(ch) && DigitValue(ch) == d
  {
    ('0' as int + d) as char
  }

  /** `n` in decimal without leading zeros (Rust's `{}` formatting of an integer). */
  function DecimalString(n: nat): (s: string)
    ensures |s| > 0
    ensures forall k | 0 <= k < |s| :: IsDigit(s[k])
    ensures DecimalValue(s) == n
  {
    if n < 10 then [Digit(n)]
    else
      var init := DecimalString(n / 10);
      var s := init + [Digit(n % 10)];
      assert s[..|s| - 1] == init;
      s
  }

  /** Parsing undoes formatting for every `u64`. */
  lemma ParseFormattedU64(n: U64)
    ensures ParseU64(DecimalString(n)) == Some(n)
  {
  }

  /** A leading `+` is accepted, a leading `-` is not. */
  lemma SignExamples()
    ensures ParseU64("+7") == Some(7)
    ensures ParseU64("-7") == None
    ensures ParseU64("+") == None
    ensures ParseU64("") == None
    ensures ParseU64(" 7") == None
    ensures ParseU64("+007") == Some(7)
  {
    assert ParseU64("+7") == Some(DecimalValue("7"));
    assert !IsDigit('-');
    assert !IsDigit(' ');
    assert "007"[..2] == "00" && "00"[..1] == "0";
    assert DecimalValue("007") == 7;
  }

  // ---------------------------------------------------------------------------
  // hex
  // ---------------------------------------------------------------------------

  predicate IsHexDigit(ch: char) {
    '0' <= ch <= '9' || 'a' <= ch <= 'f' || 'A' <= ch <= 'F'
  }

  function HexValue(ch: char): (v: nat)
    requires IsHexDigit(ch)
    ensures v < 16
  {
    if '0' <= ch <= '9' then (ch as int) - ('0' as int)
    else if 'a' <= ch <= 'f' then (ch as int) - ('a' as int) + 10
    else (ch as int) - ('A' as int) + 10
  }

  /** Pairs of hex digits to bytes, high nibble first. */
  function DecodePairs(s: string): (r: Option<Bytes>)
    requires |s| % 2 == 0
    ensures r.Some? ==> |r.value| == |s| / 2
  {
    if |s| == 0 then Some([])
    else if !IsHexDigit(s[0]) || !IsHexDigit(s[1]) then None
    else
      match DecodePairs(s[2..])
      case None => None
      case Some(rest) => Some([16 * HexValue(s[0]) + HexValue(s[1])] + rest)
  }

  /** `alloy::hex::decode`: an optional `0x` prefix, then an even number of hex digits of either case. */
  function HexDecode(s: string): (r: Option<Bytes>)
    ensures r.Some? ==> |s| == 2 * |r.value| + (if |s| >= 2 && s[..2] == "0x" then 2 else 0)
  {
    var digits := if |s| >= 2 && s[..2] == "0x" then s[2..] else s;
    if |digits| % 2 != 0 then None else DecodePairs(digits)
  }

  function LowerHexDigit(v: nat): (ch: char)
    requires v < 16
    ensures IsHexDigit(ch) && HexValue(ch) == v
  {
    if v < 10 then ('0' as int + v) as char else ('a' as int + v - 10) as char
  }

  /** Lower-case hex, two digits per byte. */
  function EncodeHex(b: Bytes): (s: string)
    ensures |s| == 2 * |b|
    ensures forall k | 0 <= k < |s| :: IsHexDigit(s[k])
  {
    if |b| == 0 then [] else [LowerHexDigit(b[0] / 16), LowerHexDigit(b[0] % 16)] + EncodeHex(b[1..])
  }

  /** `alloy::hex::encode_prefixed`. */
  function EncodePrefixed(b: Bytes): string {
    "0x" + EncodeHex(b)
  }

  lemma {:induction false} DecodeEncode(b: Bytes)
    ensures DecodePairs(EncodeHex(b)) == Some(b)
  {
    if |b| > 0 {
      var s := EncodeHex(b);
      assert s[2..] == EncodeHex(b[1..]);
      DecodeEncode(b[1..]);
      assert [b[0]] + b[1..] == b;
    }
  }

  /** Decoding undoes `encode_prefixed`; the prefix is optional. */
  lemma HexRoundTrip(b: Bytes)
    ensures HexDecode(EncodePrefixed(b)) == Some(b)
    ensures HexDecode(EncodeHex(b)) == Some(b)
  {
    DecodeEncode(b);
    if |b| > 0 {
      assert EncodeHex(b)[1] == LowerHexDigit(b[0] % 16);
      assert EncodeHex(b)[..2] != "0x";
    }
    assert EncodePrefixed(b)[..2] == "0x";
    assert EncodePrefixed(b)[2..] == EncodeHex(b);
  }

  /** Any decoded string has an even number of digits after the optional prefix. */
  lemma HexOddLengthRejected(s: string)
    requires |s| % 2 == 1
    ensures HexDecode(s).None?
  {
  }
}
