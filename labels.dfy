/** The transition-label grammar of the simulator: the text "a, b -> c" that labels a
    transition, the JavaScript string primitives the parser is built from (`split` and
    `trim`), the parser `parsearTransicao` and the template that builds labels in
    `conectarNovoEstado`. */
module Labels {

  datatype Option<T> = None | Some(value: T)

  /** The empty-move symbol, U+03B5 GREEK SMALL LETTER EPSILON. */
  const Epsilon: string := "\U{03B5}"
  /** The "test without consuming" symbol. */
  const Wildcard: string := "?"
  const Arrow: string := "->"
  const Comma: string := ","

  /** The code points ECMAScript's String.prototype.trim removes from both ends:
      the WhiteSpace and LineTerminator productions of the language. */
  predicate IsWhitespace(c: char) {
    || c == '\t' || c == '\n' || c == '\U{000B}' || c == '\U{000C}' || c == '\r' || c == ' '
    || c == '\U{00A0}' || c == '\U{1680}' || ('\U{2000}' <= c <= '\U{200A}')
    || c == '\U{2028}' || c == '\U{2029}' || c == '\U{202F}' || c == '\U{205F}'
    || c == '\U{3000}' || c == '\U{FEFF}'
  }

  predicate AllWhitespace(s: string) {
    forall i :: 0 <= i < |s| ==> IsWhitespace(s[i])
  }

  predicate NoEdgeWhitespace(s: string) {
    s == [] || (!IsWhitespace(s[0]) && !IsWhitespace(s[|s| - 1]))
  }

  // ---------------------------------------------------------------------------------
  // trim
  // ---------------------------------------------------------------------------------

  /** The length of the longest all-whitespace prefix. */
  function Leading(s: string): (n: nat)
    ensures n <= |s| && AllWhitespace(s[..n]) && (n == |s| || !IsWhitespace(s[n]))
  {
    if s != [] && IsWhitespace(s[0]) then
      var m := Leading(s[1..]);
      assert s[..m + 1] == [s[0]] + s[1..][..m];
      m + 1
    else 0
  }

  /** The length of the longest all-whitespace suffix. */
  function Trailing(s: string): (n: nat)
    ensures n <= |s| && AllWhitespace(s[|s| - n..]) && (n == |s| || !IsWhitespace(s[|s| - n - 1]))
  {
    if s != [] && IsWhitespace(s[|s| - 1]) then
      var m := Trailing(s[..|s| - 1]);
      assert s[|s| - (m + 1)..] == s[..|s| - 1][|s| - 1 - m..] + [s[|s| - 1]];
      m + 1
    else 0
  }

  /** String.prototype.trim: `s` is the result framed by two runs of whitespace, and the
      result neither starts nor ends with whitespace. */
  function Trim(s: string): (r: string)
    ensures var k := Leading(s);
            && k + |r| <= |s| && r == s[k..k + |r|]
            && AllWhitespace(s[..k]) && AllWhitespace(s[k + |r|..])
    ensures NoEdgeWhitespace(r)
  {
    var k := Leading(s);
    var b := Trailing(s[k..]);
    assert s[k..][|s| - k - b..] == s[|s| - b..];
    assert b < |s| - k ==> s[k..][|s| - k - b - 1] == s[|s| - b - 1];
    s[k..|s| - b]
  }

  /** Whitespace followed by a text that does not start with whitespace. */
  lemma {:induction false} LeadingAfter(a: string, y: string)
    requires AllWhitespace(a) && (y == [] || !IsWhitespace(y[0]))
    ensures Leading(a + y) == |a|
  {
    if a == [] {
      assert a + y == y;
    } else {
      assert (a + y)[0] == a[0] && (a + y)[1..] == a[1..] + y;
      LeadingAfter(a[1..], y);
    }
  }

  /** A text that does not end with whitespace, followed by whitespace. */
  lemma {:induction false} TrailingBefore(y: string, b: string)
    requires AllWhitespace(b) && (y == [] || !IsWhitespace(y[|y| - 1]))
    ensures Trailing(y + b) == |b|
  {
    if b == [] {
      assert y + b == y;
    } else {
      var s := y + b;
      assert s[|s| - 1] == b[|b| - 1] && s[..|s| - 1] == y + b[..|b| - 1];
      TrailingBefore(y, b[..|b| - 1]);
    }
  }

  /** Trimming a padded field gives back the field. */
  lemma TrimPadded(a: string, x: string, b: string)
    requires AllWhitespace(a) && AllWhitespace(b) && NoEdgeWhitespace(x)
    ensures Trim(a + x + b) == x
  {
    var s := a + x + b;
    if x == [] {
      assert s == a + b;
      assert AllWhitespace(s) by {
        forall i | 0 <= i < |s| ensures IsWhitespace(s[i]) {
          if i < |a| { assert s[i] == a[i]; } else { assert s[i] == b[i - |a|]; }
        }
      }
      LeadingAfter(s, []);
      assert s + [] == s;
    } else {
      assert s == a + (x + b);
      LeadingAfter(a, x + b);
      var t := s[|a|..];
      assert t == x + b;
      TrailingBefore(x, b);
      assert t[..|t| - |b|] == x;
    }
  }

  // ---------------------------------------------------------------------------------
  // occurrences of a separator and split
  // ---------------------------------------------------------------------------------

  predicate OccursAt(s: string, sep: string, i: nat) {
    i + |sep| <= |s| && s[i..i + |sep|] == sep
  }

  /** `s` contains no occurrence of `sep`. */
  predicate Free(s: string, sep: string) {
    forall i: nat :: i <= |s| ==> !OccursAt(s, sep, i)
  }

  /** No proper suffix of `sep` is also a prefix of it, so two occurrences never overlap.
      True of "->" and of every one-character separator. */
  predicate NoBorder(sep: string) {
    forall d :: 0 < d < |sep| ==> sep[d..] != sep[..|sep| - d]
  }

  lemma SeparatorsHaveNoBorder()
    ensures NoBorder(Arrow) && NoBorder(Comma)
  {
    assert Arrow[1..] == ">" && Arrow[..1] == "-";
  }

  /** The first occurrence of `sep` in `s` at or after `from`. */
  function IndexOf(s: string, sep: string, from: nat): (r: Option<nat>)
    ensures r.Some? ==> from <= r.value && OccursAt(s, sep, r.value)
    ensures r.Some? ==> forall j: nat :: from <= j < r.value ==> !OccursAt(s, sep, j)
    ensures r.None? ==> forall j: nat :: from <= j ==> !OccursAt(s, sep, j)
    decreases |s| - from
  {
    if from + |sep| > |s| then None
    else if OccursAt(s, sep, from) then Some(from)
    else IndexOf(s, sep, from + 1)
  }

  /** The number of positions at or after `from` where `sep` occurs. */
  function Count(s: string, sep: string, from: nat): nat
    decreases |s| - from
  {
    if from + |sep| > |s| then 0
    else (if OccursAt(s, sep, from) then 1 else 0) + Count(s, sep, from + 1)
  }

  /** The pieces joined back with the separator between them. */
  function Join(pieces: seq<string>, sep: string): string
    requires |pieces| >= 1
  {
    if |pieces| == 1 then pieces[0] else pieces[0] + sep + Join(pieces[1..], sep)
  }

  lemma SliceOccurrence(s: string, sep: string, lo: nat, hi: nat, j: nat)
    requires lo <= hi <= |s|
    ensures OccursAt(s[lo..hi], sep, j) ==> OccursAt(s, sep, lo + j)
    ensures lo + j + |sep| <= hi && OccursAt(s, sep, lo + j) ==> OccursAt(s[lo..hi], sep, j)
  {
    if j + |sep| <= hi - lo {
      var t := s[lo..hi];
      forall k | j <= k < j + |sep| ensures t[k] == s[lo + k] {
      }
      assert t[j..j + |sep|] == s[lo + j..lo + j + |sep|];
    }
  }

  /** A slice of a string without `sep` has none either. */
  lemma FreeSlice(s: string, sep: string, lo: nat, hi: nat)
    requires lo <= hi <= |s| && Free(s, sep)
    ensures Free(s[lo..hi], sep)
  {
    forall j: nat | j <= hi - lo ensures !OccursAt(s[lo..hi], sep, j) {
      SliceOccurrence(s, sep, lo, hi, j);
    }
  }

  /** The text before the first occurrence holds none. */
  lemma PrefixBeforeFirst(s: string, sep: string, i: nat)
    requires i <= |s| && |sep| > 0
    requires forall j: nat :: j < i ==> !OccursAt(s, sep, j)
    ensures Free(s[..i], sep)
  {
    assert s[..i] == s[0..i];
    forall j: nat | j <= i ensures !OccursAt(s[..i], sep, j) {
      SliceOccurrence(s, sep, 0, i, j);
    }
  }

  /** String.prototype.split with a non-empty separator: cut at every occurrence, scanning
      from the left. Joining the pieces gives `s` back and no piece holds the separator. */
  function Split(s: string, sep: string): (r: seq<string>)
    requires |sep| > 0
    ensures |r| >= 1
    ensures Join(r, sep) == s
    ensures forall k :: 0 <= k < |r| ==> Free(r[k], sep)
    decreases |s|
  {
    match IndexOf(s, sep, 0)
    case None => [s]
    case Some(i) =>
      var rest := Split(s[i + |sep|..], sep);
      PrefixBeforeFirst(s, sep, i);
      assert s == s[..i] + sep + s[i + |sep|..];
      [s[..i]] + rest
  }

  /** When `s` holds exactly two pieces, they are the text on either side of the first
      occurrence. */
  lemma SplitInTwo(s: string, sep: string)
    requires |sep| > 0 && |Split(s, sep)| == 2
    ensures IndexOf(s, sep, 0).Some?
    ensures var i := IndexOf(s, sep, 0).value;
            Split(s, sep) == [s[..i], s[i + |sep|..]]
  {
    var i := IndexOf(s, sep, 0).value;
    var rest := s[i + |sep|..];
    assert |Split(rest, sep)| == 1;
    assert Join(Split(rest, sep), sep) == Split(rest, sep)[0];
  }

  /** The first piece is the text before the first occurrence. */
  lemma SplitHead(s: string, sep: string)
    requires |sep| > 0
    ensures IndexOf(s, sep, 0).Some? ==> Split(s, sep)[0] == s[..IndexOf(s, sep, 0).value]
    ensures IndexOf(s, sep, 0).None? ==> Split(s, sep) == [s]
  {
  }

  /** Two occurrences of a border-free separator never overlap. */
  lemma NoOverlap(s: string, sep: string, i: nat, j: nat)
    requires NoBorder(sep) && OccursAt(s, sep, i) && i < j < i + |sep|
    ensures !OccursAt(s, sep, j)
  {
    var d := j - i;
    if j + |sep| <= |s| {
      assert s[j..i + |sep|] == s[i..i + |sep|][d..];
      assert s[j..i + |sep|] == s[j..j + |sep|][..|sep| - d];
    }
  }

  /** An occurrence inside the left part of a concatenation is one of the left part. */
  lemma ConcatLeft(x: string, y: string, sep: string, j: nat)
    requires OccursAt(x + y, sep, j) && j + |sep| <= |x|
    ensures OccursAt(x, sep, j)
  {
    assert (x + y)[j..j + |sep|] == x[j..j + |sep|];
  }

  /** Splitting `a + sep + b`, where neither side holds the separator, gives `[a, b]`. */
  lemma SplitTwo(a: string, sep: string, b: string)
    requires |sep| > 0 && NoBorder(sep) && Free(a, sep) && Free(b, sep)
    ensures Split(a + sep + b, sep) == [a, b]
  {
    var s := a + sep + b;
    assert s == a + (sep + b);
    assert OccursAt(s, sep, |a|) by {
      assert s[|a|..|a| + |sep|] == sep;
    }
    forall j: nat | j < |a| ensures !OccursAt(s, sep, j) {
      if OccursAt(s, sep, j) {
        if j + |sep| <= |a| {
          ConcatLeft(a, sep + b, sep, j);
        } else {
          NoOverlap(s, sep, j, |a|);
        }
      }
    }
    assert IndexOf(s, sep, 0) == Some(|a|);
    assert s[..|a|] == a;
    assert s[|a| + |sep|..] == b;
    assert IndexOf(b, sep, 0).None?;
  }

  // ---------------------------------------------------------------------------------
  // counting occurrences
  // ---------------------------------------------------------------------------------

  lemma {:induction false} CountNone(s: string, sep: string, from: nat)
    requires forall j: nat :: from <= j ==> !OccursAt(s, sep, j)
    ensures Count(s, sep, from) == 0
    decreases |s| - from
  {
    if from + |sep| <= |s| {
      CountNone(s, sep, from + 1);
    }
  }

  lemma {:induction false} CountSkip(s: string, sep: string, from: nat, upto: nat)
    requires from <= upto
    requires forall j: nat :: from <= j < upto ==> !OccursAt(s, sep, j)
    ensures Count(s, sep, from) == Count(s, sep, upto)
    decreases upto - from
  {
    if from < upto {
      CountSkip(s, sep, from + 1, upto);
    }
  }

  lemma {:induction false} CountShift(s: string, sep: string, k: nat, from: nat)
    requires k <= |s|
    ensures Count(s, sep, k + from) == Count(s[k..], sep, from)
    decreases |s| - k - from
  {
    if k + from + |sep| <= |s| {
      SliceOccurrence(s, sep, k, |s|, from);
      assert s[k..|s|] == s[k..];
      CountShift(s, sep, k, from + 1);
    }
  }

  /** Past the first occurrence, counting starts afresh on the rest of the text. */
  lemma CountAtFirst(s: string, sep: string, i: nat)
    requires |sep| > 0 && NoBorder(sep) && IndexOf(s, sep, 0) == Some(i)
    ensures Count(s, sep, 0) == 1 + Count(s[i + |sep|..], sep, 0)
  {
    CountSkip(s, sep, 0, i);
    assert Count(s, sep, i) == 1 + Count(s, sep, i + 1);
    forall j: nat | i + 1 <= j < i + |sep| ensures !OccursAt(s, sep, j) {
      NoOverlap(s, sep, i, j);
    }
    CountSkip(s, sep, i + 1, i + |sep|);
    var k := i + |sep|;
    CountShift(s, sep, k, 0);
    assert Count(s, sep, k + 0) == Count(s[k..], sep, 0);
    assert Count(s, sep, 0) == 1 + Count(s, sep, k);
  }

  /** `split` returns one piece more than there are occurrences of the separator. */
  lemma {:induction false} SplitCount(s: string, sep: string)
    requires |sep| > 0 && NoBorder(sep)
    ensures |Split(s, sep)| == Count(s, sep, 0) + 1
    decreases |s|
  {
    match IndexOf(s, sep, 0)
    case None =>
      CountNone(s, sep, 0);
    case Some(i) =>
      CountAtFirst(s, sep, i);
      SplitCount(s[i + |sep|..], sep);
  }

  lemma OccursAtChar(s: string, c: char, i: nat)
    ensures OccursAt(s, [c], i) <==> i < |s| && s[i] == c
  {
    if i < |s| {
      assert s[i..i + 1] == [s[i]];
    }
  }

  lemma {:induction false} CountCharConcat(x: string, y: string, c: char)
    ensures Count(x + y, [c], 0) == Count(x, [c], 0) + Count(y, [c], 0)
    decreases |x|
  {
    if x == [] {
      assert x + y == y;
    } else {
      CountShift(x + y, [c], 1, 0);
      CountShift(x, [c], 1, 0);
      assert (x + y)[1..] == x[1..] + y;
      CountCharConcat(x[1..], y, c);
      OccursAtChar(x + y, c, 0);
      OccursAtChar(x, c, 0);
    }
  }

  lemma CountCharWhitespace(w: string, c: char)
    requires AllWhitespace(w) && !IsWhitespace(c)
    ensures Count(w, [c], 0) == 0
  {
    forall j: nat | 0 <= j ensures !OccursAt(w, [c], j) {
      OccursAtChar(w, c, j);
    }
    CountNone(w, [c], 0);
  }

  /** Trimming never changes how many times a non-whitespace character occurs. */
  lemma TrimKeepsChar(s: string, c: char)
    requires !IsWhitespace(c)
    ensures Count(Trim(s), [c], 0) == Count(s, [c], 0)
  {
    var r := Trim(s);
    var k := Leading(s);
    var a, b := s[..k], s[k + |r|..];
    assert s == (a + r) + b;
    CountCharConcat(a + r, b, c);
    CountCharConcat(a, r, c);
    CountCharWhitespace(a, c);
    CountCharWhitespace(b, c);
  }

  /** Trimming never changes how many commas a text holds. */
  lemma TrimKeepsCommas(s: string)
    ensures Count(Trim(s), Comma, 0) == Count(s, Comma, 0)
  {
    assert Comma == [','];
    TrimKeepsChar(s, ',');
  }

  // ---------------------------------------------------------------------------------
  // the text grammar
  // ---------------------------------------------------------------------------------

  /** The object `{lerFita, lerPilha, escrevePilha}` built by `parsearTransicao`:
      the tape symbol to read, the stack symbol to read and the text to push. */
  datatype Transition = Transition(readTape: string, readStack: string, writeStack: string)

  /** The literal ε stands for "no symbol", represented by the empty string. */
  function FromEpsilon(field: string): string {
    if field == Epsilon then "" else field
  }

  /** `parsearTransicao`: None is its `null`. */
  function Parse(text: string): Option<Transition> {
    var parts := Split(text, Arrow);
    if |parts| != 2 then None
    else
      var reading := Trim(parts[0]);
      var writing := Trim(parts[1]);
      var readParts := Split(reading, Comma);
      if |readParts| != 2 then None
      else
        var tape := Trim(readParts[0]);
        var stack := Trim(readParts[1]);
        Some(Transition(FromEpsilon(tape), FromEpsilon(stack), FromEpsilon(writing)))
  }

  /** An input field the template renders: `value || "ε"`. */
  function OrEpsilon(field: string): string {
    if field == "" then Epsilon else field
  }

  /** The text template of `conectarNovoEstado`. */
  function Encode(readTape: string, readStack: string, writeStack: string): string {
    OrEpsilon(readTape) + ", " + OrEpsilon(readStack) + " -> " + OrEpsilon(writeStack)
  }

  /** A reading field the grammar can carry: no edge whitespace, no "->", no ",". */
  predicate ReadField(x: string) {
    NoEdgeWhitespace(x) && Free(x, Arrow) && Free(x, Comma)
  }

  /** The written field may hold commas (the right-hand side is not split on them). */
  predicate WriteField(x: string) {
    NoEdgeWhitespace(x) && Free(x, Arrow)
  }

  /** What `parsearTransicao` can return: grammar fields, never the literal ε. */
  predicate WellFormed(t: Transition) {
    && ReadField(t.readTape) && ReadField(t.readStack) && WriteField(t.writeStack)
    && t.readTape != Epsilon && t.readStack != Epsilon && t.writeStack != Epsilon
  }

  /** The parser returns null unless the text has exactly one "->" and exactly one ","
      before it. */
  lemma ParseDefinedIff(text: string)
    ensures Parse(text).Some? <==>
            && Count(text, Arrow, 0) == 1
            && match IndexOf(text, Arrow, 0)
               case Some(i) => Count(text[..i], Comma, 0) == 1
               case None => false
  {
    SeparatorsHaveNoBorder();
    SplitCount(text, Arrow);
    SplitHead(text, Arrow);
    if Count(text, Arrow, 0) == 1 {
      var i := IndexOf(text, Arrow, 0);
      assert i.Some?;
      var left := text[..i.value];
      assert Split(text, Arrow)[0] == left;
      SplitCount(Trim(left), Comma);
      TrimKeepsCommas(left);
    }
  }

  /** Whether `x + y` holds a separator away from the seam depends on one side only. */
  lemma ConcatSides(x: string, y: string, sep: string, j: nat)
    ensures j + |sep| <= |x| ==> (OccursAt(x + y, sep, j) <==> OccursAt(x, sep, j))
    ensures |x| <= j ==> (OccursAt(x + y, sep, j) <==> OccursAt(y, sep, j - |x|))
  {
    if j + |sep| <= |x| {
      assert (x + y)[j..j + |sep|] == x[j..j + |sep|];
    }
    if |x| <= j && j + |sep| <= |x + y| {
      assert (x + y)[j..j + |sep|] == y[j - |x|..j - |x| + |sep|];
    }
  }

  /** Free of a one-character separator is kept by concatenation. */
  lemma FreeConcatChar(x: string, y: string, sep: string)
    requires |sep| == 1 && Free(x, sep) && Free(y, sep)
    ensures Free(x + y, sep)
  {
    forall j: nat | j <= |x + y| ensures !OccursAt(x + y, sep, j) {
      ConcatSides(x, y, sep, j);
    }
  }

  /** Free of "->" is kept by concatenation unless "-" meets ">" at the seam. */
  lemma FreeConcatArrow(x: string, y: string)
    requires Free(x, Arrow) && Free(y, Arrow)
    requires x == [] || y == [] || x[|x| - 1] != '-' || y[0] != '>'
    ensures Free(x + y, Arrow)
  {
    var s := x + y;
    forall j: nat | j <= |s| ensures !OccursAt(s, Arrow, j) {
      ConcatSides(x, y, Arrow, j);
      if j + 2 > |x| && j < |x| && j + 2 <= |s| {
        assert s[j..j + 2] == [x[|x| - 1], y[0]];
      }
    }
  }

  lemma OneCharFree(c: char, sep: string)
    requires |sep| > 0 && sep != [c]
    ensures Free([c], sep)
  {
    assert [c][0..1] == [c];
  }

  lemma EpsilonIsAField()
    ensures ReadField(Epsilon) && WriteField(Epsilon)
  {
    OneCharFree('\U{03B5}', Arrow);
    OneCharFree('\U{03B5}', Comma);
  }

  lemma SmallTextsFree()
    ensures Free(" ", Arrow) && Free(" ", Comma) && Free(", ", Arrow)
  {
    OneCharFree(' ', Arrow);
    OneCharFree(' ', Comma);
    OneCharFree(',', Arrow);
    FreeConcatArrow(",", " ");
    assert ", " == "," + " ";
  }

  /** `Parse` in terms of the two splits it performs. */
  lemma ParseOf(text: string, left: string, right: string, tape: string, stack: string)
    requires Split(text, Arrow) == [left, right]
    requires Split(Trim(left), Comma) == [tape, stack]
    ensures Parse(text) == Some(Transition(FromEpsilon(Trim(tape)), FromEpsilon(Trim(stack)),
                                           FromEpsilon(Trim(right))))
  {
  }

  /** The text template cuts at its one arrow. */
  lemma EncodeArrowSplit(f: string, p: string, e: string)
    requires ReadField(f) && ReadField(p) && WriteField(e) && f != [] && p != [] && e != []
    ensures Split(f + ", " + p + " -> " + e, Arrow) == [f + ", " + p + " ", " " + e]
  {
    SeparatorsHaveNoBorder();
    SmallTextsFree();
    OneCharFree(' ', Arrow);
    FreeConcatArrow(f, ", ");
    FreeConcatArrow(f + ", ", p);
    FreeConcatArrow(f + ", " + p, " ");
    FreeConcatArrow(" ", e);
    assert f + ", " + p + " -> " + e == (f + ", " + p + " ") + Arrow + (" " + e);
    SplitTwo(f + ", " + p + " ", Arrow, " " + e);
  }

  /** The reading half cuts at its one comma. */
  lemma EncodeCommaSplit(f: string, p: string)
    requires ReadField(f) && ReadField(p)
    ensures Split(f + ", " + p, Comma) == [f, " " + p]
  {
    SeparatorsHaveNoBorder();
    OneCharFree(' ', Comma);
    FreeConcatChar(" ", p, Comma);
    assert f + ", " + p == f + Comma + (" " + p);
    SplitTwo(f, Comma, " " + p);
  }

  /** Trimming each piece of the template gives back the field. */
  lemma EncodeTrims(f: string, p: string, e: string)
    requires NoEdgeWhitespace(f) && NoEdgeWhitespace(p) && NoEdgeWhitespace(e)
    requires f != [] && p != []
    ensures Trim(f + ", " + p + " ") == f + ", " + p
    ensures Trim(" " + e) == e && Trim(" " + p) == p && Trim(f) == f
  {
    EncodeTrimsReading(f, p);
    TrimAfterSpace(e);
    TrimAfterSpace(p);
    TrimUnpadded(f);
  }

  lemma TrimUnpadded(x: string)
    requires NoEdgeWhitespace(x)
    ensures Trim(x) == x
  {
    TrimPadded("", x, "");
    assert "" + x + "" == x;
  }

  lemma EncodeTrimsReading(f: string, p: string)
    requires NoEdgeWhitespace(f) && NoEdgeWhitespace(p) && f != [] && p != []
    ensures Trim(f + ", " + p + " ") == f + ", " + p
  {
    EncodeEdges(f, p);
    TrimPadded("", f + ", " + p, " ");
    assert "" + (f + ", " + p) + " " == f + ", " + p + " ";
  }

  lemma TrimAfterSpace(x: string)
    requires NoEdgeWhitespace(x)
    ensures Trim(" " + x) == x
  {
    TrimPadded(" ", x, "");
    assert " " + x + "" == " " + x;
  }

  lemma EncodeEdges(f: string, p: string)
    requires NoEdgeWhitespace(f) && NoEdgeWhitespace(p) && f != [] && p != []
    ensures NoEdgeWhitespace(f + ", " + p)
  {
  }

  lemma OrEpsilonField(x: string, write: bool)
    requires if write then WriteField(x) else ReadField(x)
    ensures OrEpsilon(x) != []
    ensures if write then WriteField(OrEpsilon(x)) else ReadField(OrEpsilon(x))
    ensures FromEpsilon(OrEpsilon(x)) == FromEpsilon(x)
  {
    EpsilonIsAField();
  }

  /** Round trip: parsing a text built by the template gives back its fields, with an
      empty field or a literal ε both read as "" and every other field (the wildcard "?"
      included) unchanged. */
  lemma EncodeRoundTrip(readTape: string, readStack: string, writeStack: string)
    requires ReadField(readTape) && ReadField(readStack) && WriteField(writeStack)
    ensures Parse(Encode(readTape, readStack, writeStack))
            == Some(Transition(FromEpsilon(readTape), FromEpsilon(readStack), FromEpsilon(writeStack)))
  {
    OrEpsilonField(readTape, false);
    OrEpsilonField(readStack, false);
    OrEpsilonField(writeStack, true);
    var f, p, e := OrEpsilon(readTape), OrEpsilon(readStack), OrEpsilon(writeStack);
    EncodeArrowSplit(f, p, e);
    EncodeTrims(f, p, e);
    EncodeCommaSplit(f, p);
    ParseOf(Encode(readTape, readStack, writeStack), f + ", " + p + " ", " " + e, f, " " + p);
  }

  /** Trimming keeps a text free of a separator. */
  lemma TrimFree(s: string, sep: string)
    requires Free(s, sep)
    ensures Free(Trim(s), sep)
  {
    var r := Trim(s);
    var k := Leading(s);
    FreeSlice(s, sep, k, k + |r|);
  }

  /** A trimmed field, with ε read as "", is a field of the grammar and never ε. */
  lemma FieldOf(x: string, commaFree: bool)
    requires Free(x, Arrow) && (commaFree ==> Free(x, Comma))
    ensures var y := FromEpsilon(Trim(x));
            y != Epsilon && WriteField(y) && (commaFree ==> ReadField(y))
  {
    TrimFree(x, Arrow);
    if commaFree {
      TrimFree(x, Comma);
    }
  }

  /** The two pieces of the reading half hold no arrow, as the half itself holds none. */
  lemma ReadingPieces(reading: string)
    requires Free(reading, Arrow) && |Split(reading, Comma)| == 2
    ensures Free(Split(reading, Comma)[0], Arrow) && Free(Split(reading, Comma)[1], Arrow)
  {
    SplitInTwo(reading, Comma);
    var i := IndexOf(reading, Comma, 0).value;
    FreeSlice(reading, Arrow, 0, i);
    assert reading[0..i] == reading[..i];
    FreeSlice(reading, Arrow, i + 1, |reading|);
    assert reading[i + 1..|reading|] == reading[i + 1..];
  }

  /** Every field `parsearTransicao` returns is one the template can carry, and never the
      literal ε. */
  lemma ParseWellFormed(text: string)
    requires Parse(text).Some?
    ensures WellFormed(Parse(text).value)
  {
    var parts := Split(text, Arrow);
    var reading := Trim(parts[0]);
    TrimFree(parts[0], Arrow);
    ReadingPieces(reading);
    var readParts := Split(reading, Comma);
    FieldOf(readParts[0], true);
    FieldOf(readParts[1], true);
    FieldOf(parts[1], false);
  }

  /** Parsed labels are in normal form: re-encoding what the parser returned and parsing
      again gives the same transition. */
  lemma ParseEncodeParse(text: string)
    requires Parse(text).Some?
    ensures var t := Parse(text).value;
            Parse(Encode(t.readTape, t.readStack, t.writeStack)) == Some(t)
  {
    ParseWellFormed(text);
    var t := Parse(text).value;
    EncodeRoundTrip(t.readTape, t.readStack, t.writeStack);
  }
}
