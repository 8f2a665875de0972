/** Machine integers and the parts of Rust's string API that the modelled code relies on.
    A string is a sequence of Unicode scalar values. */
module Text {
  import opened Wrappers

  type byte = x: int | 0 <= x < 0x100
  type u16 = x: int | 0 <= x < 0x1_0000
  type u32 = x: int | 0 <= x < 0x1_0000_0000
  type u64 = x: int | 0 <= x < 0x1_0000_0000_0000_0000

  /** The Unicode White_Space property, as used by `str::trim`. */
  predicate IsWhitespace(c: char) {
    var n := c as int;
    || 0x09 <= n <= 0x0D || n == 0x20 || n == 0x85 || n == 0xA0 || n == 0x1680
    || 0x2000 <= n <= 0x200A || n == 0x2028 || n == 0x2029 || n == 0x202F || n == 0x205F || n == 0x3000
  }

  function TrimStart(s: string): (r: string)
    ensures |r| <= |s| && r == s[|s| - |r|..]
    ensures r == "" || !IsWhitespace(r[0])
  {
    if s != "" && IsWhitespace(s[0]) then TrimStart(s[1..]) else s
  }

  function TrimEnd(s: string): (r: string)
    ensures r <= s
    ensures r == "" || !IsWhitespace(r[|r| - 1])
  {
    if s != "" && IsWhitespace(s[|s| - 1]) then TrimEnd(s[..|s| - 1]) else s
  }

  function Trim(s: string): string {
    TrimEnd(TrimStart(s))
  }

  lemma TrimUnchanged(s: string)
    requires s != "" && !IsWhitespace(s[0]) && !IsWhitespace(s[|s| - 1])
    ensures Trim(s) == s
  {
  }

  /** Length in UTF-8 bytes, which is what `str::len` counts. */
  function Utf8Length(s: string): nat {
    if s == "" then 0
    else
      var n := s[0] as int;
      (if n < 0x80 then 1 else if n < 0x800 then 2 else if n < 0x1_0000 then 3 else 4) + Utf8Length(s[1..])
  }

  predicate IsAscii(s: string) {
    forall i | 0 <= i < |s| :: s[i] as int < 0x80
  }

  lemma {:induction false} AsciiUtf8Length(s: string)
    requires IsAscii(s)
    ensures Utf8Length(s) == |s|
  {
    if s != "" {
      assert s[0] as int < 0x80;
      assert forall i | 0 <= i < |s| - 1 :: s[1..][i] == s[i + 1];
      AsciiUtf8Length(s[1..]);
    }
  }

  /** `u8::is_ascii_control`, or `u8::is_ascii_whitespace`. */
  predicate IsAsciiControlOrSpace(c: char) {
    c as int <= 0x20 || c as int == 0x7F
  }

  predicate IsAsciiDigit(c: char) {
    '0' <= c <= '9'
  }

  predicate IsAsciiHexDigit(c: char) {
    IsAsciiDigit(c) || 'a' <= c <= 'f' || 'A' <= c <= 'F'
  }

  predicate IsAsciiAlphanumeric(c: char) {
    IsAsciiDigit(c) || 'a' <= c <= 'z' || 'A' <= c <= 'Z'
  }

  /** `char::is_control`: the Unicode category Cc. */
  predicate IsControl(c: char) {
    var n := c as int;
    n < 0x20 || 0x7F <= n < 0xA0
  }

  function ToAsciiLower(c: char): char {
    if 'A' <= c <= 'Z' then (c as int + 32) as char else c
  }

  function AsciiLower(s: string): (r: string)
    ensures |r| == |s| && forall i | 0 <= i < |s| :: r[i] == ToAsciiLower(s[i])
  {
    seq(|s|, i requires 0 <= i < |s| => ToAsciiLower(s[i]))
  }

  /** Index of the first occurrence of `c`, or the length of `s`. */
  function IndexOf<T(==)>(s: seq<T>, c: T): (i: nat)
    ensures i <= |s| && c !in s[..i]
    ensures i < |s| ==> s[i] == c
  {
    if s == [] || s[0] == c then 0
    else
      var rest := IndexOf(s[1..], c);
      assert s[..1 + rest] == [s[0]] + s[1..][..rest];
      1 + rest
  }

  /** `str::split` on one character: always at least one piece. */
  function Split<T(==)>(s: seq<T>, c: T): (pieces: seq<seq<T>>)
    ensures pieces != []
    ensures forall p | p in pieces :: c !in p
    decreases |s|
  {
    var i := IndexOf(s, c);
    if i == |s| then [s] else [s[..i]] + Split(s[i + 1..], c)
  }

  /** `s[i..j]` stands between two separators, or one and an end, or is all there is. */
  ghost predicate IsPiece<T>(s: seq<T>, c: T, i: nat, j: nat) {
    i <= j <= |s| && (i == 0 || s[i - 1] == c) && (j == |s| || s[j] == c) && c !in s[i..j]
  }

  /** Splitting gives exactly the pieces. */
  lemma {:induction false} SplitGivesPieces<T>(s: seq<T>, c: T, piece: seq<T>)
    ensures piece in Split(s, c) <==> exists i: nat, j: nat :: IsPiece(s, c, i, j) && piece == s[i..j]
    decreases |s|
  {
    var n := IndexOf(s, c);
    assert IsPiece(s, c, 0, n) && s[0..n] == s[..n];
    if n == |s| {
      forall i: nat, j: nat | IsPiece(s, c, i, j)
        ensures s[i..j] == s
      {
        OnlyPiece(s, c, i, j);
      }
    } else {
      var rest := s[n + 1..];
      SplitGivesPieces(rest, c, piece);
      assert Split(s, c) == [s[..n]] + Split(rest, c);
      if i: nat, j: nat :| IsPiece(rest, c, i, j) && piece == rest[i..j] {
        LaterPiece(s, c, n, i, j);
      }
      if i: nat, j: nat :| IsPiece(s, c, i, j) && piece == s[i..j] {
        FirstOrLater(s, c, n, i, j);
      }
    }
  }

  lemma LaterPiece<T>(s: seq<T>, c: T, n: nat, i: nat, j: nat)
    requires n < |s| && s[n] == c && IsPiece(s[n + 1..], c, i, j)
    ensures IsPiece(s, c, n + 1 + i, n + 1 + j) && s[n + 1 + i..n + 1 + j] == s[n + 1..][i..j]
  {
    assert s[n + 1 + i..n + 1 + j] == s[n + 1..][i..j];
  }

  lemma NotBefore<T>(s: seq<T>, c: T, n: nat)
    requires n <= |s| && c !in s[..n]
    ensures forall k | 0 <= k < n :: s[k] != c
  {
    forall k | 0 <= k < n
      ensures s[k] != c
    {
      assert s[..n][k] == s[k];
    }
  }

  lemma OnlyPiece<T>(s: seq<T>, c: T, i: nat, j: nat)
    requires c !in s && IsPiece(s, c, i, j)
    ensures i == 0 && j == |s| && s[i..j] == s
  {
  }

  lemma FirstOrLater<T>(s: seq<T>, c: T, n: nat, i: nat, j: nat)
    requires n < |s| && s[n] == c && c !in s[..n] && IsPiece(s, c, i, j)
    ensures (i == 0 && j == n)
            || (i > n && IsPiece(s[n + 1..], c, i - n - 1, j - n - 1) && s[n + 1..][i - n - 1..j - n - 1] == s[i..j])
  {
    NotBefore(s, c, n);
    if i > n {
      assert s[n + 1..][i - n - 1..j - n - 1] == s[i..j];
    }
  }

  /** `str::split_once` on one character. */
  function SplitOnce(s: string, c: char): Option<(string, string)> {
    var i := IndexOf(s, c);
    if i == |s| then None else Some((s[..i], s[i + 1..]))
  }

  function StripPrefix(s: string, prefix: string): Option<string> {
    if prefix <= s then Some(s[|prefix|..]) else None
  }

  lemma IndexOfIsFirst<T>(s: seq<T>, c: T, i: nat)
    requires i < |s| && s[i] == c && c !in s[..i]
    ensures IndexOf(s, c) == i
  {
  }

  // ---------------------------------------------------------------- text order

  /** The order of strings: a strict total order. */
  predicate Below(a: string, b: string) {
    if b == "" then false
    else if a == "" then true
    else if a[0] == b[0] then Below(a[1..], b[1..])
    else a[0] < b[0]
  }

  lemma {:induction false} BelowTotal(a: string, b: string)
    ensures a == b || Below(a, b) || Below(b, a)
  {
    if a != "" && b != "" && a[0] == b[0] {
      BelowTotal(a[1..], b[1..]);
    }
  }

  lemma {:induction false} BelowIrreflexive(a: string)
    ensures !Below(a, a)
  {
    if a != "" {
      BelowIrreflexive(a[1..]);
    }
  }

  lemma {:induction false} BelowTransitive(a: string, b: string, c: string)
    requires Below(a, b) && Below(b, c)
    ensures Below(a, c)
  {
    if a != "" && a[0] == b[0] && b[0] == c[0] {
      BelowTransitive(a[1..], b[1..], c[1..]);
    }
  }

  // ---------------------------------------------------------------- unsigned numbers

  /** The value of a digit in some radix up to ten. */
  function DigitValue(c: char): nat
    requires IsAsciiDigit(c)
  {
    c as int - '0' as int
  }

  predicate IsDigits(s: string, radix: nat)
    requires radix <= 10
  {
    forall c | c in s :: IsAsciiDigit(c) && DigitValue(c) < radix
  }

  /** What a string of digits says, most significant digit first. */
  function DigitsValue(s: string, radix: nat): nat
    requires radix <= 10 && IsDigits(s, radix)
  {
    if s == "" then 0 else DigitsValue(s[..|s| - 1], radix) * radix + DigitValue(s[|s| - 1])
  }

  /** `u32::from_str_radix`: one leading plus sign is allowed, any number of leading zeros too. */
  function ParseU32(s: string, radix: nat): Option<u32>
    requires radix <= 10
  {
    var digits := if s != "" && s[0] == '+' then s[1..] else s;
    if digits == "" || !IsDigits(digits, radix) || DigitsValue(digits, radix) >= 0x1_0000_0000 then None
    else Some(DigitsValue(digits, radix))
  }

  /** `str::contains` for a text. */
  predicate Contains(s: string, part: string) {
    part <= s || (s != "" && Contains(s[1..], part))
  }

  /** The decimal form of a number, as it is displayed. */
  function Decimal(n: nat): (s: string)
    ensures s != "" && IsDigits(s, 10) && s[0] != '+'
  {
    if n < 10 then [('0' as int + n) as char] else Decimal(n / 10) + [('0' as int + n % 10) as char]
  }

  lemma {:induction false} DecimalReadsBack(n: nat)
    ensures DigitsValue(Decimal(n), 10) == n
  {
    var s := Decimal(n);
    if n >= 10 {
      DecimalReadsBack(n / 10);
      assert s[..|s| - 1] == Decimal(n / 10);
    } else {
      assert s[..0] == "";
    }
  }

  // ---------------------------------------------------------------- lines and fields

  /** `str::lines`: lines end with a line feed, and a carriage return before it goes too. */
  function Lines(s: string): seq<string>
    decreases |s|
  {
    if s == "" then []
    else
      var i := IndexOf(s, '\n');
      if i == |s| then [s] else [WithoutReturn(s[..i])] + Lines(s[i + 1..])
  }

  function WithoutReturn(line: string): string {
    if line != "" && line[|line| - 1] == '\r' then line[..|line| - 1] else line
  }

  lemma LinesOfLine(line: string, rest: string)
    requires '\n' !in line && WithoutReturn(line) == line
    ensures Lines(line + "\n" + rest) == [line] + Lines(rest)
  {
    var s := line + "\n" + rest;
    assert s[..|line|] == line && s[|line| + 1..] == rest;
    IndexOfIsFirst(s, '\n', |line|);
  }

  /** The length of the leading part without white space. */
  function FieldLength(s: string): (n: nat)
    ensures n <= |s| && (s != "" && !IsWhitespace(s[0]) ==> n > 0)
  {
    if s == "" || IsWhitespace(s[0]) then 0 else 1 + FieldLength(s[1..])
  }

  /** `str::split_whitespace`. */
  function Fields(s: string): seq<string>
    decreases |s|
  {
    var t := TrimStart(s);
    if t == "" then [] else [t[..FieldLength(t)]] + Fields(t[FieldLength(t)..])
  }

  /** `str::parse::<u32>`. */
  function ParseDecimal(s: string): Option<u32> {
    ParseU32(s, 10)
  }

  lemma DecimalParses(n: u32)
    ensures ParseDecimal(Decimal(n)) == Some(n)
  {
    DecimalReadsBack(n);
  }

  /** What `Split` does at the first separator. */
  lemma SplitAt<T>(head: seq<T>, c: T, tail: seq<T>)
    requires c !in head
    ensures Split(head + [c] + tail, c) == [head] + Split(tail, c)
  {
    var s := head + [c] + tail;
    assert s[..|head|] == head && s[|head| + 1..] == tail;
    IndexOfIsFirst(s, c, |head|);
  }

  ghost predicate IsField(s: string) {
    s != "" && forall c | c in s :: !IsWhitespace(c)
  }

  lemma {:induction false} FieldLengthIs(field: string, rest: string)
    requires (forall c | c in field :: !IsWhitespace(c)) && (rest == "" || IsWhitespace(rest[0]))
    ensures FieldLength(field + rest) == |field|
  {
    if field == "" {
      assert field + rest == rest;
    } else {
      assert (field + rest)[1..] == field[1..] + rest;
      FieldLengthIs(field[1..], rest);
    }
  }

  lemma BlankIsWhitespace()
    ensures IsWhitespace(' ')
  {
  }

  /** A key and a value, with a blank between and one behind. */
  lemma TwoFields(key: string, value: string)
    requires IsField(key) && IsField(value)
    ensures Fields(Trim(key + " " + value + " ")) == [key, value]
  {
    hide Fields, Trim;
    TrimsBlank(key, value);
    FieldsOfPair(key, value);
  }

  lemma TrimsBlank(key: string, value: string)
    requires IsField(key) && IsField(value)
    ensures Trim(key + " " + value + " ") == key + " " + value
  {
    hide IsWhitespace, TrimEnd;
    var s := key + " " + value;
    assert (s + " ")[0] == key[0] && key[0] in key;
    assert TrimStart(s + " ") == s + " ";
    EndsInField(key + " ", value);
  }

  lemma EndsInField(front: string, value: string)
    requires IsField(value)
    ensures TrimEnd(front + value + " ") == front + value
  {
    hide IsWhitespace;
    BlankIsWhitespace();
    var s := front + value;
    assert (s + " ")[..|s|] == s;
    assert s[|s| - 1] == value[|value| - 1] && value[|value| - 1] in value;
    assert TrimEnd(s) == s;
  }

  lemma FieldsOfPair(key: string, value: string)
    requires IsField(key) && IsField(value)
    ensures Fields(key + " " + value) == [key, value]
  {
    hide IsWhitespace, FieldLength, Fields, TrimStart;
    BlankIsWhitespace();
    var s := key + " " + value;
    assert s[0] == key[0] && key[0] in key;
    assert s == key + (" " + value);
    FieldLengthIs(key, " " + value);
    assert s[..|key|] == key && s[|key|..] == " " + value;
    FirstField(s);
    OneField(value);
  }

  lemma FirstField(s: string)
    requires s != "" && !IsWhitespace(s[0])
    ensures Fields(s) == [s[..FieldLength(s)]] + Fields(s[FieldLength(s)..])
  {
    hide FieldLength;
  }

  lemma OneField(value: string)
    requires IsField(value)
    ensures Fields(" " + value) == [value]
  {
    hide IsWhitespace, FieldLength;
    BlankIsWhitespace();
    assert (" " + value)[1..] == value && value[0] in value;
    assert TrimStart(value) == value;
    assert TrimStart(" " + value) == value;
    FieldLengthIs(value, "");
    assert value + "" == value;
    assert value[..|value|] == value && value[|value|..] == "";
    assert Fields("") == [];
  }
}
