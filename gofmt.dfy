/**
 * What Go's fmt.Fprintf(w, format) writes to w when it is given no operands.
 * The forwarder calls it with the received query as the format, so the
 * payload is interpreted: every '%' starts a directive (flags "#0+- ", an
 * optional [n] argument index, a width, a precision, a verb), and with
 * nothing to format each directive prints an error marker in its place:
 * "%!v(MISSING)", "%!v(BADINDEX)", "%!(BADWIDTH)", "%!(BADPREC)",
 * "%!(NOVERB)", or a single '%' for the verb '%'.
 */
module GoFmt {
  import opened GoTypes

  const PERCENT: Byte := 0x25
  const BANG: Byte := 0x21
  const LEFT_BRACKET: Byte := 0x5B
  const RIGHT_BRACKET: Byte := 0x5D
  const STAR: Byte := 0x2A
  const DOT: Byte := 0x2E

  const MISSING: seq<Byte> := Ascii("(MISSING)")
  const BAD_INDEX: seq<Byte> := Ascii("(BADINDEX)")
  const NO_VERB: seq<Byte> := Ascii("%!(NOVERB)")
  const BAD_WIDTH: seq<Byte> := Ascii("%!(BADWIDTH)")
  const BAD_PREC: seq<Byte> := Ascii("%!(BADPREC)")
  /** utf8.RuneError, U+FFFD, as UTF-8. */
  const RUNE_ERROR: seq<Byte> := [0xEF, 0xBF, 0xBD]
  /** A width, precision or index greater than this is "too large": fmt gives up on the number. */
  const TOO_LARGE := 1_000_000

  predicate IsFlag(b: Byte) {
    b == 0x23 || b == 0x30 || b == 0x2B || b == 0x2D || b == 0x20
  }

  predicate IsDigit(b: Byte) {
    0x30 <= b <= 0x39
  }

  predicate IsContinuation(b: Byte) {
    0x80 <= b <= 0xBF
  }

  /** The first index at or after i that holds a '%', or |f| when there is none. */
  function NextPercent(f: seq<Byte>, i: nat): (j: nat)
    requires i <= |f|
    ensures i <= j <= |f|
    ensures forall k :: i <= k < j ==> f[k] != PERCENT
    ensures j < |f| ==> f[j] == PERCENT
    decreases |f| - i
  {
    if i == |f| || f[i] == PERCENT then i else NextPercent(f, i + 1)
  }

  /** The first index at or after i that holds a ']', or |f| when there is none. */
  function NextRightBracket(f: seq<Byte>, i: nat): (j: nat)
    requires i <= |f|
    ensures i <= j <= |f|
    ensures forall k :: i <= k < j ==> f[k] != RIGHT_BRACKET
    ensures j < |f| ==> f[j] == RIGHT_BRACKET
    decreases |f| - i
  {
    if i == |f| || f[i] == RIGHT_BRACKET then i else NextRightBracket(f, i + 1)
  }

  /** The index just past the flags that start at i. */
  function SkipFlags(f: seq<Byte>, i: nat): (j: nat)
    requires i <= |f|
    ensures i <= j <= |f|
    ensures forall k :: i <= k < j ==> IsFlag(f[k])
    ensures j < |f| ==> !IsFlag(f[j])
    decreases |f| - i
  {
    if i < |f| && IsFlag(f[i]) then SkipFlags(f, i + 1) else i
  }

  /** The result of fmt's parsenum: whether a number was read, and where scanning resumes. */
  datatype Num = Num(isNum: bool, next: nat)

  /** The digit loop of parsenum, with num the value read so far. */
  function ScanDigits(f: seq<Byte>, k: nat, end: nat, num: nat, isNum: bool): (r: Num)
    requires k <= end <= |f|
    ensures k <= r.next <= end
    ensures r.next < end ==> !IsDigit(f[r.next])
    decreases end - k
  {
    if k < end && IsDigit(f[k]) then
      if num > TOO_LARGE then Num(false, end)
      else ScanDigits(f, k + 1, end, num * 10 + (f[k] - 0x30), true)
    else Num(isNum, k)
  }

  /** fmt's parsenum(f, start, end). */
  function ParseNum(f: seq<Byte>, start: nat, end: nat): (r: Num)
    requires start <= end <= |f|
    ensures start <= r.next <= end
    ensures r.next < end ==> !IsDigit(f[r.next])
  {
    if start == end then Num(false, end) else ScanDigits(f, start, end, 0, false)
  }

  /**
   * fmt's argNumber with no operands: where scanning resumes, whether an
   * index bracket was met (which always makes the argument number bad), and
   * whether it was a well-formed [n].
   */
  datatype Index = Index(next: nat, bracket: bool, found: bool)

  function ArgNumber(f: seq<Byte>, i: nat): (r: Index)
    requires i <= |f|
    ensures i <= r.next <= |f|
    ensures r.bracket <==> i < |f| && f[i] == LEFT_BRACKET
    ensures !r.bracket ==> r.next == i && !r.found
  {
    if i == |f| || f[i] != LEFT_BRACKET then Index(i, false, false)
    else if |f| - i < 3 then Index(i + 1, true, false)
    else
      var j := NextRightBracket(f, i + 1);
      if j == |f| then Index(i + 1, true, false)
      else
        var n := ParseNum(f, i + 1, j);
        Index(j + 1, true, n.isNum && n.next == j)
  }

  /** A width or precision: what it printed, where scanning resumes, the afterIndex state, whether a bracket was met. */
  datatype Part = Part(out: seq<Byte>, next: nat, afterIndex: bool, bracket: bool)

  function Width(f: seq<Byte>, i: nat, afterIndex: bool): (p: Part)
    requires i <= |f|
    ensures i <= p.next <= |f|
    ensures !p.bracket
    ensures p.out == [] || p.out == BAD_WIDTH
  {
    if i < |f| && f[i] == STAR then Part(BAD_WIDTH, i + 1, false, false)
    else Part([], ParseNum(f, i, |f|).next, afterIndex, false)
  }

  function Precision(f: seq<Byte>, i: nat, afterIndex: bool): (p: Part)
    requires i <= |f|
    ensures i <= p.next <= |f|
    ensures p.out == [] || p.out == BAD_PREC
  {
    if i + 1 < |f| && f[i] == DOT then
      var a := ArgNumber(f, i + 1);
      if a.next < |f| && f[a.next] == STAR then Part(BAD_PREC, a.next + 1, false, a.bracket)
      else Part([], ParseNum(f, a.next, |f|).next, a.found, a.bracket)
    else Part([], i, afterIndex, false)
  }

  /**
   * The number of bytes of the valid UTF-8 encoding that starts at i, as
   * utf8.DecodeRune accepts it (no overlong forms, no surrogates, nothing
   * above U+10FFFF), or 0 when the bytes there are not one.
   */
  function RuneLength(f: seq<Byte>, i: nat): (n: nat)
    requires i < |f|
    ensures n <= |f| - i
    ensures f[i] < 0x80 ==> n == 1
  {
    var b := f[i];
    if b < 0x80 then 1
    else if 0xC2 <= b <= 0xDF then
      if i + 1 < |f| && IsContinuation(f[i + 1]) then 2 else 0
    else if 0xE0 <= b <= 0xEF then
      var lo := if b == 0xE0 then 0xA0 else 0x80;
      var hi := if b == 0xED then 0x9F else 0xBF;
      if i + 2 < |f| && lo <= f[i + 1] <= hi && IsContinuation(f[i + 2]) then 3 else 0
    else if 0xF0 <= b <= 0xF4 then
      var lo := if b == 0xF0 then 0x90 else 0x80;
      var hi := if b == 0xF4 then 0x8F else 0xBF;
      if i + 3 < |f| && lo <= f[i + 1] <= hi && IsContinuation(f[i + 2]) && IsContinuation(f[i + 3])
      then 4 else 0
    else 0
  }

  /** The verb at i as fmt prints it back (invalid UTF-8 reads as RuneError), and its size in the format. */
  datatype Verb = Verb(printed: seq<Byte>, size: nat)

  function VerbAt(f: seq<Byte>, i: nat): (v: Verb)
    requires i < |f|
    ensures 1 <= v.size <= |f| - i
  {
    var n := RuneLength(f, i);
    if n == 0 then Verb(RUNE_ERROR, 1) else Verb(f[i..i + n], n)
  }

  /** One directive: what it prints, where scanning resumes, and whether printing stops there. */
  datatype Directive = Directive(out: seq<Byte>, next: nat, stop: bool)

  /**
   * The directive whose '%' is just before index i: one pass of doPrintf's
   * directive loop with no operands. What it prints always starts with '%';
   * printing stops only at the end of the format ("%!(NOVERB)"), and "%%"
   * is the escaped percent.
   */
  function ParseDirective(f: seq<Byte>, i: nat): (d: Directive)
    requires i <= |f|
    ensures i <= d.next <= |f|
    ensures !d.stop ==> i < d.next
    ensures d.stop ==> d.next == |f|
    ensures |d.out| > 0 && d.out[0] == PERCENT
    ensures i < |f| && f[i] == PERCENT ==> d == Directive([PERCENT], i + 1, false)
  {
    var afterFlags := SkipFlags(f, i);
    var index := ArgNumber(f, afterFlags);
    var width := Width(f, index.next, index.found);
    var prec := Precision(f, width.next, width.afterIndex);
    var last := if prec.afterIndex then Index(prec.next, false, true) else ArgNumber(f, prec.next);
    var badIndex := index.bracket || prec.bracket || last.bracket;
    var out := width.out + prec.out;
    if last.next == |f| then Directive(out + NO_VERB, |f|, true)
    else
      var verb := VerbAt(f, last.next);
      var printed :=
        if verb.printed == [PERCENT] then [PERCENT]
        else if badIndex then [PERCENT, BANG] + verb.printed + BAD_INDEX
        else [PERCENT, BANG] + verb.printed + MISSING;
      Directive(out + printed, last.next + verb.size, false)
  }

  /**
   * What printing the format f from index pos on writes: the bytes up to the
   * next '%' verbatim, then that directive's rendering, and so on.
   */
  function PrintFrom(f: seq<Byte>, pos: nat): (r: seq<Byte>)
    requires pos <= |f|
    ensures f[pos..NextPercent(f, pos)] <= r
    ensures NextPercent(f, pos) == |f| ==> r == f[pos..]
    ensures NextPercent(f, pos) < |f| ==> |r| > NextPercent(f, pos) - pos && r[NextPercent(f, pos) - pos] == PERCENT
    decreases |f| - pos
  {
    var j := NextPercent(f, pos);
    if j == |f| then f[pos..]
    else
      var d := ParseDirective(f, j + 1);
      f[pos..j] + d.out + (if d.stop then [] else PrintFrom(f, d.next))
  }

  /**
   * The bytes fmt.Fprintf(w, string(f)) writes to w, in one Write: f up to
   * its first '%' unchanged, and a rendering that starts with '%' there.
   */
  function Printed(f: seq<Byte>): (r: seq<Byte>)
    ensures f[..NextPercent(f, 0)] <= r
    ensures NextPercent(f, 0) < |f| ==> |r| > NextPercent(f, 0) && r[NextPercent(f, 0)] == PERCENT
  {
    PrintFrom(f, 0)
  }

  /** A byte that, right after a '%', is read as a plain one-byte verb and not as a flag or a number. */
  predicate IsPlainVerb(b: Byte) {
    b < 0x80 && b != PERCENT && b != BANG && !IsFlag(b) && !IsDigit(b)
    && b != LEFT_BRACKET && b != STAR && b != DOT
  }

  /** A format without '%' is written as it is. */
  lemma NoPercentPrintsVerbatim(f: seq<Byte>)
    requires forall k :: 0 <= k < |f| ==> f[k] != PERCENT
    ensures Printed(f) == f
  {
    assert NextPercent(f, 0) == |f|;
  }

  /** The directive that a plain verb v right after the '%' forms prints "%!v(MISSING)". */
  lemma PlainVerbDirective(f: seq<Byte>, i: nat)
    requires i < |f| && IsPlainVerb(f[i])
    ensures ParseDirective(f, i) == Directive([PERCENT, BANG, f[i]] + MISSING, i + 1, false)
  {
    assert SkipFlags(f, i) == i;
    assert ArgNumber(f, i) == Index(i, false, false);
    assert ParseNum(f, i, |f|).next == i;
    assert Width(f, i, false) == Part([], i, false, false);
    assert Precision(f, i, false) == Part([], i, false, false);
    assert VerbAt(f, i) == Verb([f[i]], 1);
  }

  /**
   * A format whose first '%' is its last byte, or is followed by a plain verb,
   * is not written as it is: the byte after that '%' becomes '!' (or the
   * marker "%!(NOVERB)" makes the output longer).
   */
  lemma PercentAltersPayload(f: seq<Byte>, p: nat)
    requires p < |f| && f[p] == PERCENT
    requires forall k :: 0 <= k < p ==> f[k] != PERCENT
    requires p + 1 == |f| || IsPlainVerb(f[p + 1])
    ensures Printed(f) != f
  {
    assert NextPercent(f, 0) == p;
    var d := ParseDirective(f, p + 1);
    assert Printed(f) == f[..p] + d.out + (if d.stop then [] else PrintFrom(f, d.next));
    if p + 1 == |f| {
      assert SkipFlags(f, p + 1) == |f|;
      assert d == Directive(NO_VERB, |f|, true);
      assert |Printed(f)| == p + 10;
    } else {
      PlainVerbDirective(f, p + 1);
      assert Printed(f)[p + 1] == BANG;
    }
  }
}
