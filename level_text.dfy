/** The text layer of the level format read by `Board::loadFromStream`
    (src/board.cpp): splitting at a delimiter the way `std::getline` does,
    `std::string::find`, and `std::stoi` on the decimal integers of a level. */
module LevelText {
  import opened Wrappers

  /** `s.find(c)`: the first position of `c` in `s`, or `npos` (None). */
  function Find(s: string, c: char): (r: Option<nat>)
    ensures r.Some? ==> r.value < |s| && s[r.value] == c && c !in s[..r.value]
    ensures r.None? ==> c !in s
  {
    if s == [] then None
    else if s[0] == c then Some(0)
    else match Find(s[1..], c)
      case None => None
      case Some(k) => assert s[..k + 1] == [s[0]] + s[1..][..k]; Some(k + 1)
  }

  /** The pieces of `s` between occurrences of `sep`, in order; reading `s`
      with `std::getline(stream, piece, sep)` yields the same pieces except
      that it never yields a final empty one. */
  function Split(s: string, sep: char): (r: seq<string>)
    ensures |r| >= 1
    ensures forall i :: 0 <= i < |r| ==> sep !in r[i]
    decreases |s|
  {
    match Find(s, sep)
    case None => [s]
    case Some(k) => [s[..k]] + Split(s[k + 1..], sep)
  }

  /** The pieces glued back together with `sep` between them. */
  function Join(pieces: seq<string>, sep: char): string
    requires |pieces| >= 1
  {
    if |pieces| == 1 then pieces[0] else pieces[0] + [sep] + Join(pieces[1..], sep)
  }

  /** Splitting loses nothing: the pieces and the separators between them
      give back the text. */
  lemma {:induction false} JoinSplit(s: string, sep: char)
    ensures Join(Split(s, sep), sep) == s
    decreases |s|
  {
    match Find(s, sep)
    case None =>
    case Some(k) =>
      var rest := Split(s[k + 1..], sep);
      assert Split(s, sep) == [s[..k]] + rest;
      assert ([s[..k]] + rest)[1..] == rest;
      JoinSplit(s[k + 1..], sep);
      calc {
        Join(Split(s, sep), sep);
        s[..k] + [sep] + Join(rest, sep);
        s[..k] + [sep] + s[k + 1..];
        s;
      }
  }

  /** The pieces `std::getline` hands to a reader that skips empty ones:
      the non-empty pieces, in order. */
  function NonEmpty(pieces: seq<string>): (r: seq<string>)
    ensures forall i :: 0 <= i < |r| ==> r[i] != [] && r[i] in pieces
    ensures forall p :: p in pieces && p != [] ==> p in r
  {
    if pieces == [] then []
    else if pieces[0] == [] then NonEmpty(pieces[1..])
    else [pieces[0]] + NonEmpty(pieces[1..])
  }

  /** A reading position: raw line `c` is where non-blank line `k` of `ls`
      is read next. */
  ghost predicate At(lines: seq<string>, c: nat, ls: seq<string>, k: nat) {
    c <= |lines| && k <= |ls| && NonEmpty(lines[c..]) == ls[k..]
  }

  /** The `nextLine` lambda of `loadFromStream`: reads lines from `c` on,
      skipping empty ones, and stops at the first non-empty one (`found`)
      or at the end of the text. In terms of the non-blank lines `ls`, it
      reads line `k` when there is one. */
  method NextLine(lines: seq<string>, c: nat, ghost ls: seq<string>, ghost k: nat)
    returns (found: bool, line: string, next: nat, ghost k': nat)
    requires At(lines, c, ls, k)
    ensures found <==> k < |ls|
    ensures found ==> line == ls[k] && line != [] && k' == k + 1
    ensures !found ==> k' == k
    ensures At(lines, next, ls, k')
  {
    next := c;
    while next < |lines| && lines[next] == []
      invariant c <= next <= |lines| && NonEmpty(lines[next..]) == ls[k..]
    {
      assert lines[next..][1..] == lines[next + 1..];
      next := next + 1;
    }
    if next < |lines| {
      assert lines[next..][1..] == lines[next + 1..];
      assert ls[k..][1..] == ls[k + 1..];
      found, line, next, k' := true, lines[next], next + 1, k + 1;
    } else {
      found, line, k' := false, [], k;
    }
  }

  /** `std::isspace` in the "C" locale. */
  predicate IsSpace(c: char) {
    c == ' ' || c == '\t' || c == '\n' || c == '\U{0B}' || c == '\U{0C}' || c == '\r'
  }

  predicate IsDigit(c: char) {
    '0' <= c <= '9'
  }

  function DigitValue(c: char): nat
    requires IsDigit(c)
  {
    (c - '0') as nat
  }

  /** The position of the first character at or after `i` that is not
      white space. */
  function SkipSpace(s: string, i: nat): (j: nat)
    requires i <= |s|
    ensures i <= j <= |s| && (j < |s| ==> !IsSpace(s[j]))
    ensures forall k :: i <= k < j ==> IsSpace(s[k])
    decreases |s| - i
  {
    if i < |s| && IsSpace(s[i]) then SkipSpace(s, i + 1) else i
  }

  /** The end of the run of digits that starts at `i`. */
  function DigitsEnd(s: string, i: nat): (j: nat)
    requires i <= |s|
    ensures i <= j <= |s| && (j < |s| ==> !IsDigit(s[j]))
    ensures forall k :: i <= k < j ==> IsDigit(s[k])
    decreases |s| - i
  {
    if i < |s| && IsDigit(s[i]) then DigitsEnd(s, i + 1) else i
  }

  /** The value of a run of decimal digits, most significant first. */
  function DigitsValue(d: string): nat
    requires forall k :: 0 <= k < |d| ==> IsDigit(d[k])
  {
    if d == [] then 0 else DigitsValue(d[..|d| - 1]) * 10 + DigitValue(d[|d| - 1])
  }

  const IntMin: int := -0x8000_0000
  const IntMax: int := 0x7FFF_FFFF

  predicate InInt(n: int) {
    IntMin <= n <= IntMax
  }

  /** `std::stoi(s)`: leading white space skipped, an optional sign, at least
      one decimal digit, anything after the digits ignored. None stands for
      the two exceptions it throws: no digits (std::invalid_argument) and a
      value outside `int` (std::out_of_range). */
  function StoI(s: string): (r: Option<int>)
    ensures r.Some? ==> InInt(r.value)
  {
    Number(s, SkipSpace(s, 0))
  }

  /** The optional sign and the digits `std::stoi` reads from position `i`. */
  function Number(s: string, i: nat): (r: Option<int>)
    requires i <= |s|
    ensures r.Some? ==> InInt(r.value)
  {
    var negative := i < |s| && s[i] == '-';
    var j := if i < |s| && (s[i] == '-' || s[i] == '+') then i + 1 else i;
    var k := DigitsEnd(s, j);
    if k == j then None
    else
      assert forall m :: 0 <= m < k - j ==> s[j..k][m] == s[j + m];
      Signed(negative, s[j..k])
  }

  /** A run of digits with its sign, when the value fits in an `int`. */
  function Signed(negative: bool, d: string): (r: Option<int>)
    requires forall k :: 0 <= k < |d| ==> IsDigit(d[k])
    ensures r.Some? ==> InInt(r.value)
  {
    var magnitude: int := DigitsValue(d);
    var n := if negative then -magnitude else magnitude;
    if InInt(n) then Some(n) else None
  }

  /** The decimal digits of `n`, most significant first, no leading zero. */
  function NatDigits(n: nat): (d: string)
    ensures |d| >= 1 && forall k :: 0 <= k < |d| ==> IsDigit(d[k])
  {
    var last := ['0' + (n % 10) as char];
    if n < 10 then last else NatDigits(n / 10) + last
  }

  /** `n` as a level file writes it: an optional minus sign and its digits. */
  function Decimal(n: int): string {
    if n < 0 then "-" + NatDigits(-n) else NatDigits(n)
  }

  lemma {:induction false} NatDigitsValue(n: nat)
    ensures DigitsValue(NatDigits(n)) == n
  {
    var d := NatDigits(n);
    if n >= 10 {
      NatDigitsValue(n / 10);
      assert d[..|d| - 1] == NatDigits(n / 10);
    }
  }

  /** `std::stoi` reads back every `int` written in decimal, whatever text
      follows the number as long as it does not start with a digit (the
      `,y` after the `x` of a point line, say). */
  lemma StoIDecimal(n: int, rest: string)
    requires InInt(n)
    requires rest == [] || !IsDigit(rest[0])
    ensures StoI(Decimal(n) + rest) == Some(n)
  {
    var m: nat := if n < 0 then -n else n;
    var sign := if n < 0 then "-" else "";
    NatDigitsValue(m);
    SignedDigits(sign, NatDigits(m), rest, m, n < 0);
    assert Decimal(n) + rest == sign + NatDigits(m) + rest;
  }

  /** An optional minus sign, a run of digits of value `m` and a text that
      does not go on with a digit: `std::stoi` reads the signed `m`. */
  lemma SignedDigits(sign: string, d: string, rest: string, m: nat, negative: bool)
    requires sign == (if negative then "-" else "")
    requires |d| >= 1 && forall k :: 0 <= k < |d| ==> IsDigit(d[k])
    requires DigitsValue(d) == m
    requires rest == [] || !IsDigit(rest[0])
    requires InInt(if negative then -(m as int) else m as int)
    ensures StoI(sign + d + rest) == Some(if negative then -(m as int) else m as int)
  {
    var s := sign + d + rest;
    DigitsFollowedBy(sign, d, rest);
    if negative {
      assert s[0] == '-';
    } else {
      assert s[0] == d[0] && IsDigit(d[0]);
    }
    NoLeadingSpace(s);
    NumberReads(s, |sign|, |d|, negative);
    assert StoI(s) == Number(s, 0);
  }

  lemma NoLeadingSpace(s: string)
    requires s != [] && !IsSpace(s[0])
    ensures SkipSpace(s, 0) == 0
  {
  }

  /** A run of digits in the middle of a text, followed by the end of the
      text or by a non-digit, is read whole. */
  lemma DigitsFollowedBy(pre: string, d: string, rest: string)
    requires forall k :: 0 <= k < |d| ==> IsDigit(d[k])
    requires rest == [] || !IsDigit(rest[0])
    ensures (pre + d + rest)[|pre|..|pre| + |d|] == d
    ensures DigitsEnd(pre + d + rest, |pre|) == |pre| + |d|
  {
    var s := pre + d + rest;
    assert s[|pre|..|pre| + |d|] == d;
    forall k | |pre| <= k < |pre| + |d| ensures IsDigit(s[k]) {
      assert s[k] == d[k - |pre|];
    }
    if rest != [] {
      assert s[|pre| + |d|] == rest[0];
    }
    DigitsRun(s, |pre|, |d|);
  }

  /** The sign and the run of digits `std::stoi` reads from the start of a
      text with no leading white space. */
  lemma NumberReads(s: string, j: nat, len: nat, negative: bool)
    requires j == (if negative then 1 else 0) && 1 <= len && j + len <= |s|
    requires negative ==> s[0] == '-'
    requires !negative ==> IsDigit(s[0])
    requires DigitsEnd(s, j) == j + len
    requires var v: int := DigitsValue(s[j..j + len]); InInt(if negative then -v else v)
    ensures var v: int := DigitsValue(s[j..j + len]); Number(s, 0) == Some(if negative then -v else v)
  {
  }

  /** A run of `len` digits from `j` followed by a non-digit or the end. */
  lemma {:induction false} DigitsRun(s: string, j: nat, len: nat)
    requires j + len <= |s|
    requires forall k :: j <= k < j + len ==> IsDigit(s[k])
    requires j + len == |s| || !IsDigit(s[j + len])
    ensures DigitsEnd(s, j) == j + len
    decreases len
  {
    if len > 0 {
      DigitsRun(s, j + 1, len - 1);
    }
  }

  /** Leading white space does not change what `std::stoi` reads. */
  lemma StoISkipsSpace(c: char, s: string)
    requires IsSpace(c)
    ensures StoI([c] + s) == StoI(s)
  {
    SkipShift(c, s, 0);
    NumberShift(c, s, SkipSpace(s, 0));
  }

  /** Reading a number is unaffected by a character put in front of it. */
  lemma NumberShift(c: char, s: string, i: nat)
    requires i <= |s|
    ensures Number([c] + s, i + 1) == Number(s, i)
  {
    var t := [c] + s;
    assert i < |s| ==> t[i + 1] == s[i];
    var j := if i < |s| && (s[i] == '-' || s[i] == '+') then i + 1 else i;
    DigitsShift(c, s, j);
    var k := DigitsEnd(s, j);
    assert t[j + 1..k + 1] == s[j..k];
  }

  lemma {:induction false} SkipShift(c: char, s: string, i: nat)
    requires IsSpace(c) && i <= |s|
    ensures SkipSpace([c] + s, i + 1) == SkipSpace(s, i) + 1
    ensures i == 0 ==> SkipSpace([c] + s, 0) == SkipSpace(s, 0) + 1
    decreases |s| - i
  {
    var t := [c] + s;
    if i < |s| {
      assert t[i + 1] == s[i];
      SkipShift(c, s, i + 1);
    }
  }

  lemma {:induction false} DigitsShift(c: char, s: string, j: nat)
    requires j <= |s|
    ensures DigitsEnd([c] + s, j + 1) == DigitsEnd(s, j) + 1
    decreases |s| - j
  {
    var t := [c] + s;
    if j < |s| {
      assert t[j + 1] == s[j];
      DigitsShift(c, s, j + 1);
    }
  }

  /** `std::stoi` needs a digit: text with none is rejected. */
  lemma NoDigitNoNumber(s: string)
    requires forall k :: 0 <= k < |s| ==> !IsDigit(s[k])
    ensures StoI(s) == None
  {
    var i := SkipSpace(s, 0);
    var j := if i < |s| && (s[i] == '-' || s[i] == '+') then i + 1 else i;
    assert DigitsEnd(s, j) == j;
  }
}
