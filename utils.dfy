/** String and number helpers of the charts (utils.js): HTML decimal
    entities, day differences and set equality. */
module Utils {
  import opened Wrappers

  /** A UTF-16 code unit; JavaScript strings are sequences of them. */
  type CodeUnit = c: int | 0 <= c < 0x1_0000

  type JsString = seq<CodeUnit>

  const Ampersand: CodeUnit := 0x26   // '&'
  const NumberSign: CodeUnit := 0x23  // '#'
  const Semicolon: CodeUnit := 0x3B   // ';'
  const PlusSign: CodeUnit := 0x2B    // '+'
  const MinusSign: CodeUnit := 0x2D   // '-'

  predicate IsDigit(c: CodeUnit) { 0x30 <= c <= 0x39 }

  predicate IsLower(c: CodeUnit) { 0x61 <= c <= 0x7A }

  function DigitValue(c: CodeUnit): nat
    requires IsDigit(c)
  {
    c - 0x30
  }

  // ---------------------------------------------------------------------
  // parseInt(_, 10) and unicodeHtmlEntity
  // ---------------------------------------------------------------------

  /** The white space and line terminators parseInt skips at the start
      (StrWhiteSpaceChar of ECMAScript). */
  predicate IsStrWhiteSpace(c: CodeUnit) {
    c == 0x09 || c == 0x0B || c == 0x0C || c == 0x20 || c == 0xA0 || c == 0xFEFF ||
    c == 0x1680 || (0x2000 <= c <= 0x200A) || c == 0x202F || c == 0x205F || c == 0x3000 ||
    c == 0x0A || c == 0x0D || c == 0x2028 || c == 0x2029
  }

  function TrimStart(s: JsString): (r: JsString)
    ensures |r| <= |s| && r == s[|s| - |r|..]
    ensures |r| > 0 ==> !IsStrWhiteSpace(r[0])
    ensures forall i :: 0 <= i < |s| - |r| ==> IsStrWhiteSpace(s[i])
  {
    if |s| > 0 && IsStrWhiteSpace(s[0]) then TrimStart(s[1..]) else s
  }

  /** Length of the run of decimal digits at the start of s. */
  function LeadingDigits(s: JsString): (n: nat)
    ensures n <= |s|
    ensures forall i :: 0 <= i < n ==> IsDigit(s[i])
    ensures n < |s| ==> !IsDigit(s[n])
  {
    if |s| > 0 && IsDigit(s[0]) then 1 + LeadingDigits(s[1..]) else 0
  }

  predicate AllDigits(s: JsString) {
    forall i :: 0 <= i < |s| ==> IsDigit(s[i])
  }

  /** The value of a string of decimal digits. */
  function DigitsValue(ds: JsString): nat
    requires AllDigits(ds)
  {
    if |ds| == 0 then 0 else 10 * DigitsValue(ds[..|ds| - 1]) + DigitValue(ds[|ds| - 1])
  }

  /** parseInt(s, 10); None stands for NaN. Values are exact: the rounding of
      numbers beyond 2^53 is not modelled. */
  function ParseInt(s: JsString): (r: Option<int>)
    ensures r.None? <==> LeadingDigits(AfterSign(TrimStart(s))) == 0
  {
    var t := TrimStart(s);
    var negative := |t| > 0 && t[0] == MinusSign;
    var body := AfterSign(t);
    var n := LeadingDigits(body);
    if n == 0 then None
    else
      var magnitude: int := DigitsValue(body[..n]);
      Some(if negative then -magnitude else magnitude)
  }

  /** The number parseInt reads: the decimal value of the digits after the
      white space and the optional sign, negated after a '-'. */
  lemma ParseIntValue(s: JsString)
    requires ParseInt(s).Some?
    ensures var t := TrimStart(s);
            var digits := AfterSign(t)[..LeadingDigits(AfterSign(t))];
            |t| > 0 && AllDigits(digits) &&
            ParseInt(s).value == if t[0] == MinusSign then -(DigitsValue(digits) as int) else DigitsValue(digits)
  {
  }

  /** The string with one leading '+' or '-' removed. */
  function AfterSign(t: JsString): JsString {
    if |t| > 0 && (t[0] == PlusSign || t[0] == MinusSign) then t[1..] else t
  }

  /** `someString.slice(2, -1)` */
  function EntityBody(s: JsString): (r: JsString)
    ensures |s| >= 3 ==> r == s[2..|s| - 1]
    ensures |s| < 3 ==> r == []
  {
    if |s| >= 3 then s[2..|s| - 1] else []
  }

  /** unicodeHtmlEntity: the code unit `N mod 2^16` (String.fromCharCode) for
      the number N parseInt reads after the first two characters, or the
      empty string when that is NaN or zero. */
  function UnicodeHtmlEntity(s: JsString): (r: JsString)
    ensures |r| <= 1
    ensures |r| == 1 <==> ParseInt(EntityBody(s)).Some? && ParseInt(EntityBody(s)).value != 0
    ensures |r| == 1 ==> r[0] == ParseInt(EntityBody(s)).value % 0x1_0000
  {
    match ParseInt(EntityBody(s))
    case Some(n) => if n != 0 then [n % 0x1_0000] else []
    case None => []
  }

  /** `&#N;` decodes to the code unit N mod 2^16, and to nothing when N is 0. */
  lemma NumericEntityDecodes(ds: JsString)
    requires |ds| > 0 && AllDigits(ds)
    ensures var n := DigitsValue(ds);
            UnicodeHtmlEntity([Ampersand, NumberSign] + ds + [Semicolon]) ==
              if n == 0 then [] else [n % 0x1_0000]
  {
    var s := [Ampersand, NumberSign] + ds + [Semicolon];
    assert EntityBody(s) == ds;
    ParseIntOfDigits(ds);
  }

  /** A plain string of decimal digits parses to its decimal value. */
  lemma ParseIntOfDigits(ds: JsString)
    requires |ds| > 0 && AllDigits(ds)
    ensures ParseInt(ds) == Some(DigitsValue(ds) as int)
  {
    assert TrimStart(ds) == ds;
    assert AfterSign(ds) == ds;
    AllDigitsAreLeading(ds);
    assert ds[..|ds|] == ds;
  }

  lemma {:induction false} AllDigitsAreLeading(ds: JsString)
    requires AllDigits(ds)
    ensures LeadingDigits(ds) == |ds|
  {
    if |ds| > 0 {
      AllDigitsAreLeading(ds[1..]);
    }
  }

  /** A named entity `&name;` decodes to the empty string, so replacing it
      deletes it. */
  lemma NamedEntityDecodesToEmpty(letters: JsString)
    requires |letters| > 0 && forall i :: 0 <= i < |letters| ==> IsLower(letters[i])
    ensures UnicodeHtmlEntity([Ampersand] + letters + [Semicolon]) == []
  {
    var s := [Ampersand] + letters + [Semicolon];
    var body := EntityBody(s);
    assert body == letters[1..];
    if |body| > 0 {
      assert body[0] == letters[1];
    }
  }

  // ---------------------------------------------------------------------
  // getHtmlFromString: /&(?:[a-z]+|#\d+);/g
  // ---------------------------------------------------------------------

  /** `&` + lower-case letters + `;`, or `&#` + digits + `;`. */
  function IsEntity(t: JsString): (r: bool)
    ensures r ==> |t| >= 3 && Ampersand !in t[1..] && Semicolon !in t[..|t| - 1]
  {
    |t| >= 3 && t[0] == Ampersand && t[|t| - 1] == Semicolon &&
    ((forall i :: 1 <= i < |t| - 1 ==> IsLower(t[i])) ||
     (|t| >= 4 && t[1] == NumberSign && forall i :: 2 <= i < |t| - 1 ==> IsDigit(t[i])))
  }

  /** Length of the run of lower-case letters starting at p. */
  function LowerRun(s: JsString, p: nat): (k: nat)
    requires p <= |s|
    ensures p + k <= |s|
    decreases |s| - p
  {
    if p < |s| && IsLower(s[p]) then 1 + LowerRun(s, p + 1) else 0
  }

  /** Length of the run of decimal digits starting at p. */
  function DigitRun(s: JsString, p: nat): (k: nat)
    requires p <= |s|
    ensures p + k <= |s|
    decreases |s| - p
  {
    if p < |s| && IsDigit(s[p]) then 1 + DigitRun(s, p + 1) else 0
  }

  /** The run found by LowerRun is all lower-case and cannot be extended. */
  lemma {:induction false} LowerRunIsMaximal(s: JsString, p: nat)
    requires p <= |s|
    ensures forall i :: p <= i < p + LowerRun(s, p) ==> IsLower(s[i])
    ensures p + LowerRun(s, p) < |s| ==> !IsLower(s[p + LowerRun(s, p)])
    decreases |s| - p
  {
    if p < |s| && IsLower(s[p]) {
      LowerRunIsMaximal(s, p + 1);
    }
  }

  /** The run found by DigitRun is all digits and cannot be extended. */
  lemma {:induction false} DigitRunIsMaximal(s: JsString, p: nat)
    requires p <= |s|
    ensures forall i :: p <= i < p + DigitRun(s, p) ==> IsDigit(s[i])
    ensures p + DigitRun(s, p) < |s| ==> !IsDigit(s[p + DigitRun(s, p)])
    decreases |s| - p
  {
    if p < |s| && IsDigit(s[p]) {
      DigitRunIsMaximal(s, p + 1);
    }
  }

  /** The len code units of s from p on are an entity. */
  predicate EntityOccursAt(s: JsString, p: nat, len: nat) {
    p + len <= |s| && IsEntity(s[p..p + len])
  }

  /** The length of the regular expression's match starting exactly at p. */
  function EntityAt(s: JsString, p: nat): (r: Option<nat>)
    requires p <= |s|
    ensures r.Some? ==> 3 <= r.value && p + r.value <= |s|
  {
    if p + 1 < |s| && s[p] == Ampersand then
      if IsLower(s[p + 1]) then
        var k := LowerRun(s, p + 1);
        if p + 1 + k < |s| && s[p + 1 + k] == Semicolon then Some(k + 2) else None
      else if s[p + 1] == NumberSign then
        var k := DigitRun(s, p + 2);
        if k > 0 && p + 2 + k < |s| && s[p + 2 + k] == Semicolon then Some(k + 3) else None
      else None
    else None
  }

  /** The scanner finds only entities. */
  lemma EntityAtIsSound(s: JsString, p: nat)
    requires p <= |s|
    ensures EntityAt(s, p).Some? ==> EntityOccursAt(s, p, EntityAt(s, p).value)
  {
    if p + 1 < |s| {
      LowerRunIsMaximal(s, p + 1);
    }
    if p + 2 <= |s| {
      DigitRunIsMaximal(s, p + 2);
    }
  }

  /** The scanner misses no entity: whenever one starts at p, EntityAt finds
      exactly it. */
  lemma EntityAtIsComplete(s: JsString, p: nat, len: nat)
    requires p + len <= |s| && IsEntity(s[p..p + len])
    ensures EntityAt(s, p) == Some(len)
  {
    var t := s[p..p + len];
    assert forall i :: 0 <= i < len ==> t[i] == s[p + i];
    if forall i :: 1 <= i < len - 1 ==> IsLower(t[i]) {
      LowerRunIsExact(s, p + 1, len - 2);
    } else {
      DigitRunIsExact(s, p + 2, len - 3);
    }
  }

  lemma {:induction false} LowerRunIsExact(s: JsString, q: nat, k: nat)
    requires q + k < |s|
    requires forall i :: q <= i < q + k ==> IsLower(s[i])
    requires !IsLower(s[q + k])
    ensures LowerRun(s, q) == k
    decreases k
  {
    if k > 0 {
      LowerRunIsExact(s, q + 1, k - 1);
    }
  }

  lemma {:induction false} DigitRunIsExact(s: JsString, q: nat, k: nat)
    requires q + k < |s|
    requires forall i :: q <= i < q + k ==> IsDigit(s[i])
    requires !IsDigit(s[q + k])
    ensures DigitRun(s, q) == k
    decreases k
  {
    if k > 0 {
      DigitRunIsExact(s, q + 1, k - 1);
    }
  }

  /** Where a match starts and how long it is. */
  datatype Span = Span(start: nat, len: nat)

  /** The spans of the global match from position p on: try a match at p;
      after a match go on at its end, otherwise at p + 1. */
  function MatchSpans(s: JsString, p: nat): (r: seq<Span>)
    requires p <= |s|
    ensures forall k :: 0 <= k < |r| ==> p <= r[k].start && r[k].start + r[k].len <= |s|
    ensures forall a, b :: 0 <= a < b < |r| ==> r[a].start + r[a].len <= r[b].start
    decreases |s| - p
  {
    if p == |s| then []
    else
      match EntityAt(s, p)
      case Some(len) => [Span(p, len)] + MatchSpans(s, p + len)
      case None => MatchSpans(s, p + 1)
  }

  /** Every span of the match is an entity. */
  lemma {:induction false} MatchSpansAreEntities(s: JsString, p: nat)
    requires p <= |s|
    ensures forall k :: 0 <= k < |MatchSpans(s, p)| ==>
              EntityOccursAt(s, MatchSpans(s, p)[k].start, MatchSpans(s, p)[k].len)
    decreases |s| - p
  {
    if p < |s| {
      EntityAtIsSound(s, p);
      match EntityAt(s, p)
      case Some(len) =>
        MatchSpansAreEntities(s, p + len);
      case None =>
        MatchSpansAreEntities(s, p + 1);
    }
  }

  /** No `&` occurs inside a match after its first code unit. */
  lemma NoAmpersandInsideMatch(s: JsString, p: nat, q: nat)
    requires p <= |s| && EntityAt(s, p).Some? && p < q < p + EntityAt(s, p).value
    ensures s[q] != Ampersand
  {
    EntityAtIsSound(s, p);
    var len := EntityAt(s, p).value;
    var t := s[p..p + len];
    assert t[q - p] == s[q];
  }

  /** A match that starts before an `&` at q ends at or before q. */
  lemma MatchEndsBeforeAmpersand(s: JsString, p: nat, q: nat) returns (len: nat)
    requires p < q < |s| && s[q] == Ampersand && EntityAt(s, p).Some?
    ensures EntityAt(s, p) == Some(len) && p + len <= q
  {
    len := EntityAt(s, p).value;
    if q < p + len {
      NoAmpersandInsideMatch(s, p, q);
      assert false;
    }
  }

  /** One step of the scan from p towards an `&` at q: the scan resumes
      step positions on, never beyond q, having found the spans in skipped
      (the match at p, or none). */
  lemma ScanStep(s: JsString, p: nat, q: nat) returns (step: nat, skipped: seq<Span>)
    requires p < q < |s| && s[q] == Ampersand
    ensures 0 < step && p + step <= q && |skipped| <= 1
    ensures MatchSpans(s, p) == skipped + MatchSpans(s, p + step)
  {
    if EntityAt(s, p).Some? {
      step, skipped := ScanPastMatch(s, p, q);
    } else {
      step, skipped := ScanPastNoMatch(s, p, q);
    }
  }

  /** The step of the scan at a match: the whole match is skipped. */
  lemma ScanPastMatch(s: JsString, p: nat, q: nat) returns (step: nat, skipped: seq<Span>)
    requires p < q < |s| && s[q] == Ampersand && EntityAt(s, p).Some?
    ensures 0 < step && p + step <= q && |skipped| <= 1
    ensures MatchSpans(s, p) == skipped + MatchSpans(s, p + step)
  {
    var len := MatchEndsBeforeAmpersand(s, p, q);
    MatchSpansAtMatch(s, p, len);
    step, skipped := len, [Span(p, len)];
  }

  /** The step of the scan where nothing matches: one position on. */
  lemma ScanPastNoMatch(s: JsString, p: nat, q: nat) returns (step: nat, skipped: seq<Span>)
    requires p < q < |s| && EntityAt(s, p).None?
    ensures 0 < step && p + step <= q && |skipped| <= 1
    ensures MatchSpans(s, p) == skipped + MatchSpans(s, p + step)
  {
    MatchSpansAtNoMatch(s, p);
    step, skipped := 1, [];
    assert skipped + MatchSpans(s, p + step) == MatchSpans(s, p + 1);
  }

  /** The span found at q is found again by the scan from any p <= q, at
      some index k. */
  lemma {:induction false} MatchIndexAt(s: JsString, p: nat, q: nat, len: nat) returns (k: nat)
    requires p <= q < |s| && s[q] == Ampersand
    requires |MatchSpans(s, q)| > 0 && MatchSpans(s, q)[0] == Span(q, len)
    ensures k < |MatchSpans(s, p)| && MatchSpans(s, p)[k] == Span(q, len)
    decreases |s| - p
  {
    if p == q {
      k := 0;
    } else {
      var step, skipped := ScanStep(s, p, q);
      var next := p + step;
      var j := MatchIndexAt(s, next, q, len);
      k := |skipped| + j;
      IndexPastPrefix(skipped, MatchSpans(s, next), j);
    }
  }

  lemma IndexPastPrefix<T>(a: seq<T>, b: seq<T>, j: nat)
    requires j < |b|
    ensures |a| + j < |a + b| && (a + b)[|a| + j] == b[j]
  {
  }

  /** The global match misses no entity: every occurrence at or after p is
      one of the spans found from p on, at index k. */
  lemma MatchIndexOfEntity(s: JsString, p: nat, q: nat, len: nat) returns (k: nat)
    requires p <= q && EntityOccursAt(s, q, len)
    ensures k < |MatchSpans(s, p)| && MatchSpans(s, p)[k] == Span(q, len)
  {
    EntityStartsWithAmpersand(s, q, len);
    EntityAtIsComplete(s, q, len);
    MatchSpansAtMatch(s, q, len);
    k := MatchIndexAt(s, p, q, len);
  }

  /** Every entity occurring at or after p is among the spans found from p on. */
  lemma EveryEntityIsMatched(s: JsString, p: nat, q: nat, len: nat)
    requires p <= q && EntityOccursAt(s, q, len)
    ensures Span(q, len) in MatchSpans(s, p)
  {
    var k := MatchIndexOfEntity(s, p, q, len);
  }

  lemma EntityStartsWithAmpersand(s: JsString, q: nat, len: nat)
    requires EntityOccursAt(s, q, len)
    ensures q < |s| && s[q] == Ampersand
  {
    assert s[q..q + len][0] == s[q];
  }

  /** Every entity occurring in s is among the matched texts. */
  lemma EveryEntityIsInMatches(s: JsString, q: nat, len: nat)
    requires EntityOccursAt(s, q, len)
    ensures s[q..q + len] in Matches(s)
  {
    var k := MatchIndexOfEntity(s, 0, q, len);
    var spans := MatchSpans(s, 0);
    var texts := Texts(s, spans);
    assert texts[k] == s[q..q + len];
    assert Matches(s) == texts;
  }

  predicate SpansWithin(s: JsString, spans: seq<Span>) {
    forall k :: 0 <= k < |spans| ==> spans[k].start + spans[k].len <= |s|
  }

  /** The matched texts of the spans. */
  function Texts(s: JsString, spans: seq<Span>): (r: seq<JsString>)
    requires SpansWithin(s, spans)
    ensures |r| == |spans|
    ensures forall k :: 0 <= k < |spans| ==> r[k] == s[spans[k].start..spans[k].start + spans[k].len]
  {
    seq(|spans|, k requires 0 <= k < |spans| => s[spans[k].start..spans[k].start + spans[k].len])
  }

  /** `someString.match(/&(?:[a-z]+|#\d+);/g)` as a list, empty for `null`. */
  function Matches(s: JsString): (r: seq<JsString>)
    ensures forall k :: 0 <= k < |r| ==> 3 <= |r[k]| && r[k][0] == Ampersand && r[k][|r[k]| - 1] == Semicolon
  {
    MatchSpansAreEntities(s, 0);
    var spans := MatchSpans(s, 0);
    assert forall k :: 0 <= k < |spans| ==> EntityOccursAt(s, spans[k].start, spans[k].len);
    MatchesFrom(s, 0)
  }

  /** Every match is an entity. */
  lemma MatchesAreEntities(s: JsString)
    ensures forall k :: 0 <= k < |Matches(s)| ==> IsEntity(Matches(s)[k])
  {
    var spans := MatchSpans(s, 0);
    MatchSpansAreEntities(s, 0);
    forall k | 0 <= k < |spans|
      ensures IsEntity(Matches(s)[k])
    {
      assert EntityOccursAt(s, spans[k].start, spans[k].len);
    }
  }

  /** The matched texts from position p on. */
  function MatchesFrom(s: JsString, p: nat): seq<JsString>
    requires p <= |s|
  {
    Texts(s, MatchSpans(s, p))
  }

  /** Some entity occurs somewhere in s. */
  ghost predicate ContainsEntity(s: JsString) {
    exists p: nat, len: nat :: EntityOccursAt(s, p, len)
  }

  lemma {:induction false} SpansFoundBeforeEntity(s: JsString, q: nat, p: nat, len: nat)
    requires q <= p && p + len <= |s| && IsEntity(s[p..p + len])
    ensures |MatchSpans(s, q)| > 0
    decreases p - q
  {
    if EntityAt(s, q).None? {
      if q == p {
        EntityAtIsComplete(s, p, len);
      } else {
        SpansFoundBeforeEntity(s, q + 1, p, len);
      }
    }
  }

  /** The match is `null` exactly when no entity occurs in the string. */
  lemma MatchesEmptyIffNoEntity(s: JsString)
    ensures |Matches(s)| == 0 <==> !ContainsEntity(s)
  {
    var spans := MatchSpans(s, 0);
    if ContainsEntity(s) {
      var p: nat, len: nat :| EntityOccursAt(s, p, len);
      SpansFoundBeforeEntity(s, 0, p, len);
    }
    if |spans| > 0 {
      MatchSpansAreEntities(s, 0);
      assert EntityOccursAt(s, spans[0].start, spans[0].len);
    }
  }

  lemma TextsOfMatchAt(s: JsString, p: nat, len: nat)
    requires p < |s| && EntityAt(s, p) == Some(len)
    ensures MatchesFrom(s, p) == [s[p..p + len]] + MatchesFrom(s, p + len)
  {
    MatchSpansAtMatch(s, p, len);
    TextsCons(s, Span(p, len), MatchSpans(s, p + len));
  }

  lemma MatchSpansAtMatch(s: JsString, p: nat, len: nat)
    requires p < |s| && EntityAt(s, p) == Some(len)
    ensures MatchSpans(s, p) == [Span(p, len)] + MatchSpans(s, p + len)
  {
  }

  lemma MatchSpansAtNoMatch(s: JsString, p: nat)
    requires p < |s| && EntityAt(s, p).None?
    ensures MatchSpans(s, p) == MatchSpans(s, p + 1)
  {
  }

  lemma TextsCons(s: JsString, first: Span, rest: seq<Span>)
    requires first.start + first.len <= |s| && SpansWithin(s, rest)
    ensures SpansWithin(s, [first] + rest)
    ensures Texts(s, [first] + rest) == [s[first.start..first.start + first.len]] + Texts(s, rest)
  {
    var spans := [first] + rest;
    assert forall k :: 1 <= k < |spans| ==> spans[k] == rest[k - 1];
  }

  lemma TextsOfNoMatchAt(s: JsString, p: nat)
    requires p < |s| && EntityAt(s, p).None?
    ensures MatchesFrom(s, p) == MatchesFrom(s, p + 1)
  {
  }

  /** One step of the scan over a match at p. */
  lemma ScanMatchStep(s: JsString, p: nat, len: nat, found: seq<JsString>, all: seq<JsString>)
    requires p < |s| && EntityAt(s, p) == Some(len)
    requires found + MatchesFrom(s, p) == all
    ensures (found + [s[p..p + len]]) + MatchesFrom(s, p + len) == all
  {
    TextsOfMatchAt(s, p, len);
  }

  /** Every entity occurring in s is among the texts ms. */
  ghost predicate EveryEntityListed(s: JsString, ms: seq<JsString>) {
    forall q: nat, len: nat :: EntityOccursAt(s, q, len) ==> s[q..q + len] in ms
  }

  /** getHtmlFromString, as a left-to-right scan. */
  method GetHtmlFromString(s: JsString) returns (r: Option<seq<JsString>>)
    ensures r == if |Matches(s)| == 0 then None else Some(Matches(s))
    ensures r.None? <==> !ContainsEntity(s)
    ensures r.Some? ==> forall k :: 0 <= k < |r.value| ==> IsEntity(r.value[k])
    ensures r.Some? ==> EveryEntityListed(s, r.value)
  {
    var found: seq<JsString> := [];
    var p := 0;
    while p < |s|
      invariant 0 <= p <= |s|
      invariant found + MatchesFrom(s, p) == Matches(s)
      decreases |s| - p
    {
      var m := EntityAt(s, p);
      if m.Some? {
        var x := s[p..p + m.value];
        ScanMatchStep(s, p, m.value, found, Matches(s));
        found := found + [x];
        p := p + m.value;
      } else {
        TextsOfNoMatchAt(s, p);
        p := p + 1;
      }
    }
    NoMatchesAtEnd(s);
    assert found + [] == found;
    MatchesEmptyIffNoEntity(s);
    MatchesAreEntities(s);
    forall q: nat, len: nat | EntityOccursAt(s, q, len)
      ensures s[q..q + len] in Matches(s)
    {
      EveryEntityIsInMatches(s, q, len);
    }
    assert EveryEntityListed(s, Matches(s));
    r := if |found| == 0 then None else Some(found);
  }

  lemma NoMatchesAtEnd(s: JsString)
    ensures MatchesFrom(s, |s|) == []
  {
  }

  // ---------------------------------------------------------------------
  // replaceHtmlEntities
  // ---------------------------------------------------------------------

  predicate OccursAt(s: JsString, pat: JsString, m: nat) {
    m + |pat| <= |s| && s[m..m + |pat|] == pat
  }

  /** The first position at or after i where pat occurs in s. */
  function IndexOfFrom(s: JsString, pat: JsString, i: nat): (r: Option<nat>)
    ensures r.Some? ==> i <= r.value && OccursAt(s, pat, r.value)
    ensures r.Some? ==> forall m :: i <= m < r.value ==> !OccursAt(s, pat, m)
    ensures r.None? ==> forall m :: i <= m ==> !OccursAt(s, pat, m)
    decreases |s| - i
  {
    if i + |pat| > |s| then None
    else if OccursAt(s, pat, i) then Some(i)
    else IndexOfFrom(s, pat, i + 1)
  }

  /** `s.replace(pat, rep)` with a string pattern: the first occurrence is
      replaced. A replacement of at most one code unit holds none of the
      two-character `$` patterns. */
  function ReplaceFirst(s: JsString, pat: JsString, rep: JsString): (r: JsString)
    ensures IndexOfFrom(s, pat, 0).None? ==> r == s
    ensures IndexOfFrom(s, pat, 0).Some? ==>
              var k := IndexOfFrom(s, pat, 0).value;
              |r| == |s| - |pat| + |rep| && r == s[..k] + rep + s[k + |pat|..]
  {
    match IndexOfFrom(s, pat, 0)
    case None => s
    case Some(k) => s[..k] + rep + s[k + |pat|..]
  }

  /** None of the patterns occurs anywhere in s: `indexOf` finds each of
      them nowhere. */
  predicate NoneOccurs(s: JsString, pats: seq<JsString>)
    decreases |pats|
  {
    |pats| == 0 || (IndexOfFrom(s, pats[0], 0).None? && NoneOccurs(s, pats[1..]))
  }

  /** The loop of replaceHtmlEntities: each entity in turn replaces its first
      remaining occurrence by its decoding. */
  function ReplaceEach(s: JsString, entities: seq<JsString>): (r: JsString)
    ensures NoneOccurs(s, entities) ==> r == s
    decreases |entities|
  {
    if |entities| == 0 then s
    else ReplaceEach(ReplaceFirst(s, entities[0], UnicodeHtmlEntity(entities[0])), entities[1..])
  }

  /** Replacing entities never lengthens the string. */
  lemma {:induction false} ReplaceEachDoesNotGrow(s: JsString, entities: seq<JsString>)
    requires forall k :: 0 <= k < |entities| ==> IsEntity(entities[k])
    ensures |ReplaceEach(s, entities)| <= |s|
    decreases |entities|
  {
    if |entities| > 0 {
      ReplaceEachDoesNotGrow(ReplaceFirst(s, entities[0], UnicodeHtmlEntity(entities[0])), entities[1..]);
    }
  }

  /** replaceHtmlEntities */
  method ReplaceHtmlEntities(someString: JsString) returns (r: JsString)
    ensures r == ReplaceEach(someString, Matches(someString))
    ensures r == someString <==> !ContainsEntity(someString)
    ensures |r| <= |someString|
  {
    var entities := GetHtmlFromString(someString);
    if entities.Some? {
      r := ReplaceEntities(someString, entities.value);
    } else {
      assert Matches(someString) == [];
      r := someString;
    }
    ReplacedMatchesMeaning(someString);
  }

  /** The for-of loop of replaceHtmlEntities: each entity in turn replaces
      its first remaining occurrence by its decoding. */
  method ReplaceEntities(someString: JsString, entities: seq<JsString>) returns (r: JsString)
    ensures r == ReplaceEach(someString, entities)
  {
    r := someString;
    for i := 0 to |entities|
      invariant ReplaceEach(r, entities[i..]) == ReplaceEach(someString, entities)
    {
      ReplaceEachStep(r, entities, i);
      var unicodeEntity := UnicodeHtmlEntity(entities[i]);
      r := ReplaceFirst(r, entities[i], unicodeEntity);
    }
    assert entities[|entities|..] == [];
  }

  /** The string comes back unchanged exactly when it holds no entity, and
      never longer. */
  lemma ReplacedMatchesMeaning(s: JsString)
    ensures ReplaceEach(s, Matches(s)) == s <==> !ContainsEntity(s)
    ensures |ReplaceEach(s, Matches(s))| <= |s|
  {
    MatchesEmptyIffNoEntity(s);
    ReplacingMatchesShrinks(s);
  }

  /** One turn of the replaceHtmlEntities loop. */
  lemma ReplaceEachStep(r: JsString, es: seq<JsString>, i: nat)
    requires i < |es|
    ensures ReplaceEach(r, es[i..]) == ReplaceEach(ReplaceFirst(r, es[i], UnicodeHtmlEntity(es[i])), es[i + 1..])
  {
    assert es[i..][1..] == es[i + 1..];
  }

  /** Replacing the matches shortens the string exactly when there are some. */
  lemma ReplacingMatchesShrinks(s: JsString)
    ensures var ms := Matches(s);
            |ReplaceEach(s, ms)| <= |s| && (|ms| > 0 ==> |ReplaceEach(s, ms)| < |s|)
  {
    var ms := Matches(s);
    MatchesAreEntities(s);
    ReplaceEachDoesNotGrow(s, ms);
    if |ms| > 0 {
      FirstMatchOccurs(s);
      var e := ms[0];
      var first := ReplaceFirst(s, e, UnicodeHtmlEntity(e));
      ReplaceFirstOfOccurringEntityShrinks(s, e, MatchSpans(s, 0)[0].start);
      assert ReplaceEach(s, ms) == ReplaceEach(first, ms[1..]);
      ReplaceEachDoesNotGrow(first, ms[1..]);
    }
  }

  lemma FirstMatchOccurs(s: JsString)
    requires |Matches(s)| > 0
    ensures OccursAt(s, Matches(s)[0], MatchSpans(s, 0)[0].start)
  {
  }

  lemma ReplaceFirstOfOccurringEntityShrinks(s: JsString, e: JsString, m: nat)
    requires IsEntity(e) && OccursAt(s, e, m)
    ensures |ReplaceFirst(s, e, UnicodeHtmlEntity(e))| < |s|
  {
  }

  // ---------------------------------------------------------------------
  // deltaDays and setEquality
  // ---------------------------------------------------------------------

  const MillisPerDay: int := 24 * 60 * 60 * 1000

  /** deltaDays on the two dates' `getTime()` values:
      `Math.round((date2 - date1) / MillisPerDay)`, halves rounded up. */
  function DeltaDays(date1Ms: int, date2Ms: int): (days: int)
    ensures 2 * days * MillisPerDay - MillisPerDay <= 2 * (date2Ms - date1Ms)
                                                  < 2 * days * MillisPerDay + MillisPerDay
  {
    (2 * (date2Ms - date1Ms) + MillisPerDay) / (2 * MillisPerDay)
  }

  /** A difference of exactly k days gives k; equal dates give 0. */
  lemma DeltaDaysOfWholeDays(date1Ms: int, k: int)
    ensures DeltaDays(date1Ms, date1Ms + k * MillisPerDay) == k
  {
    var d := DeltaDays(date1Ms, date1Ms + k * MillisPerDay);
    assert (2 * d - 1) * MillisPerDay <= 2 * k * MillisPerDay < (2 * d + 1) * MillisPerDay;
  }

  /** setEquality: same size and every element of the first is in the
      second. */
  function SetEquality<T>(set1: set<T>, set2: set<T>): (r: bool)
    ensures r <==> set1 == set2
  {
    var sizeEqual := |set1| == |set2|;
    var itemsEqual := forall x :: x in set1 ==> x in set2;
    if sizeEqual && itemsEqual then
      SubsetOfSameSizeIsEqual(set1, set2);
      true
    else
      false
  }

  /** setEquality is reflexive and symmetric. */
  lemma SetEqualityIsReflexiveAndSymmetric<T>(set1: set<T>, set2: set<T>)
    ensures SetEquality(set1, set1)
    ensures SetEquality(set1, set2) == SetEquality(set2, set1)
  {
  }

  lemma SubsetOfSameSizeIsEqual<T>(a: set<T>, b: set<T>)
    requires a <= b && |a| == |b|
    ensures a == b
  {
    assert b == a + (b - a);
    assert |b - a| == 0;
  }
}
