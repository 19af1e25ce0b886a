/**
  `replaceImports`: rewrites the source literal of every top-level import
  declaration of a worker entry, splicing each new literal into the text at its
  original position shifted by the length change of the splices before it.

  The parser (`@babel/parser`) is outside the model: its output is the sequence
  of top-level statements, where an import declaration carries the start offset
  and the raw text (quotes included) of its source literal. The specifier
  between the quotes goes through `revealSpec`, which stands for
  `revealFile(entry, ·)` of the entry being transformed.
 */
module Rewrite {
  import opened Text

  datatype Stmt = ImportDeclaration(start: nat, raw: string) | OtherStatement

  /** Where one import's source literal sits in the original text. */
  datatype Span = Span(start: nat, raw: string)

  function SpanEnd(sp: Span): nat
  {
    sp.start + |sp.raw|
  }

  /** The import declarations of a statement list, in order; everything else is skipped. */
  function ImportSpans(body: seq<Stmt>): (spans: seq<Span>)
    ensures |spans| <= |body|
  {
    if body == [] then []
    else
      ImportSpans(body[..|body| - 1]) +
        match body[|body| - 1]
        case ImportDeclaration(start, raw) => [Span(start, raw)]
        case OtherStatement => []
  }

  lemma {:induction false} ImportSpansAppend(a: seq<Stmt>, b: seq<Stmt>)
    ensures ImportSpans(a + b) == ImportSpans(a) + ImportSpans(b)
  {
    if b == [] {
      assert a + b == a;
    } else {
      assert (a + b)[..|a + b| - 1] == a + b[..|b| - 1];
      ImportSpansAppend(a, b[..|b| - 1]);
    }
  }

  /** The spans of the first i + 1 statements: those of the first i, then statement i's own. */
  lemma ImportSpansSnoc(body: seq<Stmt>, i: nat)
    requires i < |body|
    ensures ImportSpans(body[..i + 1]) == ImportSpans(body[..i]) + ImportSpans([body[i]])
  {
    assert body[..i + 1] == body[..i] + [body[i]];
    ImportSpansAppend(body[..i], [body[i]]);
  }

  /** The spans of a statement list: those before a cut, then those after it. */
  lemma ImportSpansCut(body: seq<Stmt>, j: nat)
    requires j <= |body|
    ensures ImportSpans(body) == ImportSpans(body[..j]) + ImportSpans(body[j..])
  {
    assert body == body[..j] + body[j..];
    ImportSpansAppend(body[..j], body[j..]);
  }

  lemma ImportSpansSingle(st: Stmt)
    ensures st.ImportDeclaration? ==> ImportSpans([st]) == [Span(st.start, st.raw)]
    ensures st.OtherStatement? ==> ImportSpans([st]) == []
  {
    assert [st][..0] == [];
  }

  /** The statement at index i adds its span, if it is an import, right after those of the statements before it. */
  lemma ImportSpansStep(body: seq<Stmt>, i: nat, k: nat)
    requires i < |body| && k <= |ImportSpans(body)| && ImportSpans(body[..i]) == ImportSpans(body)[..k]
    ensures body[i].ImportDeclaration? ==>
      && k < |ImportSpans(body)| && ImportSpans(body)[k] == Span(body[i].start, body[i].raw)
      && ImportSpans(body[..i + 1]) == ImportSpans(body)[..k + 1]
    ensures body[i].OtherStatement? ==> ImportSpans(body[..i + 1]) == ImportSpans(body)[..k]
  {
    var spans := ImportSpans(body);
    var a, b, c := ImportSpans(body[..i]), ImportSpans([body[i]]), ImportSpans(body[i + 1..]);
    ImportSpansSnoc(body, i);
    ImportSpansCut(body, i + 1);
    ImportSpansSingle(body[i]);
    assert spans == a + b + c;
    assert |a| == k;
    if body[i].ImportDeclaration? {
      assert spans[k] == b[0];
      assert spans[..k + 1] == a + b;
    }
  }

  /** A span is collected exactly when the statement list holds that import declaration. */
  lemma {:induction false} ImportSpansExactlyImports(body: seq<Stmt>)
    ensures forall sp :: sp in ImportSpans(body) <==> ImportDeclaration(sp.start, sp.raw) in body
  {
    if body != [] {
      var init := body[..|body| - 1];
      ImportSpansExactlyImports(init);
      assert body == init + [body[|body| - 1]];
    }
  }

  /**
    What the parser guarantees of the spans, and all the splicing relies on:
    every literal is at least its two quotes long and lies inside the text, and
    the literals come in textual order without overlapping.
   */
  predicate WellFormed(code: string, spans: seq<Span>)
  {
    && (forall k :: 0 <= k < |spans| ==> |spans[k].raw| >= 2 && SpanEnd(spans[k]) <= |code|)
    && (forall i, j :: 0 <= i < j < |spans| ==> SpanEnd(spans[i]) <= spans[j].start)
  }

  /** The raw text of each span is what the original text holds there, between matching quotes. */
  predicate LiteralsAsWritten(code: string, spans: seq<Span>)
    requires WellFormed(code, spans)
  {
    forall k :: 0 <= k < |spans| ==>
      && code[spans[k].start..SpanEnd(spans[k])] == spans[k].raw
      && spans[k].raw[|spans[k].raw| - 1] == spans[k].raw[0]
  }

  /** The specifier inside a literal: everything between its first and its last character. */
  function Specifier(raw: string): string
    requires |raw| >= 2
  {
    raw[1..|raw| - 1]
  }

  /**
    The literal spliced in for `raw`: the opening quote character at both ends,
    the revealed specifier in between.
   */
  function Virtual(revealSpec: string -> string, raw: string): (v: string)
    requires |raw| >= 2
    ensures |v| >= 2 && v[0] == raw[0] && v[|v| - 1] == raw[0]
  {
    [raw[0]] + revealSpec(Specifier(raw)) + [raw[0]]
  }

  /**
    The new literal equals the old one exactly when revealing leaves the
    specifier as it is and the literal's closing quote matches its opening one.
   */
  lemma VirtualKeepsLiteral(revealSpec: string -> string, raw: string)
    requires |raw| >= 2
    ensures Virtual(revealSpec, raw) == raw <==> revealSpec(Specifier(raw)) == Specifier(raw) && raw[|raw| - 1] == raw[0]
  {
    var v := Virtual(revealSpec, raw);
    assert v[1..|v| - 1] == revealSpec(Specifier(raw));
    assert raw == [raw[0]] + Specifier(raw) + [raw[|raw| - 1]];
  }

  /** The new literal of every span, in order: the edit list `replaceImports` applies. */
  function VirtualLiterals(revealSpec: string -> string, spans: seq<Span>): seq<string>
    requires forall k :: 0 <= k < |spans| ==> |spans[k].raw| >= 2
  {
    seq(|spans|, k requires 0 <= k < |spans| => Virtual(revealSpec, spans[k].raw))
  }

  lemma VirtualLiteralAt(revealSpec: string -> string, spans: seq<Span>, k: nat)
    requires forall j :: 0 <= j < |spans| ==> |spans[j].raw| >= 2
    requires k < |spans|
    ensures |VirtualLiterals(revealSpec, spans)| == |spans|
    ensures VirtualLiterals(revealSpec, spans)[k] == Virtual(revealSpec, spans[k].raw)
  {
  }

  /** End of the k-th literal (0 before the first). */
  function EndOf(spans: seq<Span>, k: nat): nat
    requires k <= |spans|
  {
    if k == 0 then 0 else SpanEnd(spans[k - 1])
  }

  /** The output up to the end of the k-th replaced literal, `lits[i]` standing in for span i. */
  function Head(code: string, spans: seq<Span>, lits: seq<string>, k: nat): string
    requires WellFormed(code, spans) && |lits| == |spans| && k <= |spans|
  {
    if k == 0 then []
    else Head(code, spans, lits, k - 1) + code[EndOf(spans, k - 1)..spans[k - 1].start] + lits[k - 1]
  }

  /** The original text with its first k literals replaced. */
  function Rewritten(code: string, spans: seq<Span>, lits: seq<string>, k: nat): string
    requires WellFormed(code, spans) && |lits| == |spans| && k <= |spans|
  {
    Head(code, spans, lits, k) + code[EndOf(spans, k)..]
  }

  /** Sum of `|lits[i]| - |raw_i|` over the first k literals: the value of `offset` after them. */
  function Drift(spans: seq<Span>, lits: seq<string>, k: nat): int
    requires |lits| == |spans| && k <= |spans|
  {
    if k == 0 then 0 else Drift(spans, lits, k - 1) + |lits[k - 1]| - |spans[k - 1].raw|
  }

  lemma {:induction false} HeadLength(code: string, spans: seq<Span>, lits: seq<string>, k: nat)
    requires WellFormed(code, spans) && |lits| == |spans| && k <= |spans|
    ensures |Head(code, spans, lits, k)| == EndOf(spans, k) + Drift(spans, lits, k)
  {
    if k > 0 {
      HeadLength(code, spans, lits, k - 1);
    }
  }

  lemma {:induction false} HeadPrefix(code: string, spans: seq<Span>, lits: seq<string>, k: nat, n: nat)
    requires WellFormed(code, spans) && |lits| == |spans| && k <= n <= |spans|
    ensures Head(code, spans, lits, k) <= Head(code, spans, lits, n)
  {
    if k < n {
      HeadPrefix(code, spans, lits, k, n - 1);
    }
  }

  /** Every head is a prefix of the fully rewritten text. */
  lemma HeadInRewritten(code: string, spans: seq<Span>, lits: seq<string>, k: nat)
    requires WellFormed(code, spans) && |lits| == |spans| && k <= |spans|
    ensures Head(code, spans, lits, k) <= Rewritten(code, spans, lits, |spans|)
  {
    HeadPrefix(code, spans, lits, k, |spans|);
  }

  /** `v` written over the `len` characters of `text` that start at `at`. */
  function Splice(text: string, at: int, len: nat, v: string): string
    requires 0 <= at && at + len <= |text|
  {
    text[..at] + v + text[at + len..]
  }

  /** One turn of the loop: splicing at `start + offset` turns k replaced literals into k + 1. */
  lemma SpliceStep(code: string, spans: seq<Span>, lits: seq<string>, k: nat)
    requires WellFormed(code, spans) && |lits| == |spans| && k < |spans|
    ensures
      var text := Rewritten(code, spans, lits, k);
      var p := spans[k].start + Drift(spans, lits, k);
      var raw := spans[k].raw;
      && 0 <= p && p + |raw| <= |text|
      && Splice(text, p, |raw|, lits[k]) == Rewritten(code, spans, lits, k + 1)
  {
    HeadLength(code, spans, lits, k);
    var head := Head(code, spans, lits, k);
    var e := EndOf(spans, k);
    var text := head + code[e..];
    var p := spans[k].start + Drift(spans, lits, k);
    var raw := spans[k].raw;
    assert Rewritten(code, spans, lits, k) == text;
    assert p == |head| + (spans[k].start - e);
    assert text[..p] == head + code[e..spans[k].start];
    assert text[p + |raw|..] == code[SpanEnd(spans[k])..];
    assert Rewritten(code, spans, lits, k + 1) == head + code[e..spans[k].start] + lits[k] + code[SpanEnd(spans[k])..];
  }

  /** The loop's invariant after k import literals: the text and `offset` of `replaceImports`. */
  ghost predicate Progress(code: string, spans: seq<Span>, lits: seq<string>, k: nat, out: string, offset: int)
  {
    && WellFormed(code, spans) && |lits| == |spans| && k <= |spans|
    && out == Rewritten(code, spans, lits, k)
    && offset == Drift(spans, lits, k)
  }

  lemma SpliceKeepsProgress(code: string, spans: seq<Span>, lits: seq<string>, k: nat, out: string, offset: int,
                            start: nat, raw: string, v: string)
    requires Progress(code, spans, lits, k, out, offset)
    requires k < |spans| && spans[k] == Span(start, raw) && v == lits[k]
    ensures 0 <= start + offset && start + offset + |raw| <= |out|
    ensures Progress(code, spans, lits, k + 1, Splice(out, start + offset, |raw|, v), offset + |v| - |raw|)
  {
    SpliceStep(code, spans, lits, k);
  }

  lemma ProgressDone(code: string, spans: seq<Span>, lits: seq<string>, out: string, offset: int)
    requires Progress(code, spans, lits, |spans|, out, offset)
    ensures out == Rewritten(code, spans, lits, |spans|)
    ensures |out| == |code| + Drift(spans, lits, |spans|) == |code| + offset
  {
    HeadLength(code, spans, lits, |spans|);
  }

  /** The invariant of the loop over the statements, after the first i of them. */
  ghost predicate LoopInvariant(revealSpec: string -> string, code: string, body: seq<Stmt>,
                                i: nat, k: nat, out: string, offset: int)
  {
    var spans := ImportSpans(body);
    && i <= |body| && k <= |spans| && ImportSpans(body[..i]) == spans[..k]
    && WellFormed(code, spans)
    && Progress(code, spans, VirtualLiterals(revealSpec, spans), k, out, offset)
  }

  lemma LoopSkip(revealSpec: string -> string, code: string, body: seq<Stmt>, i: nat, k: nat, out: string, offset: int)
    requires LoopInvariant(revealSpec, code, body, i, k, out, offset) && i < |body| && body[i].OtherStatement?
    ensures LoopInvariant(revealSpec, code, body, i + 1, k, out, offset)
  {
    ImportSpansStep(body, i, k);
  }

  lemma LoopSplice(revealSpec: string -> string, code: string, body: seq<Stmt>, i: nat, k: nat, out: string, offset: int)
    requires LoopInvariant(revealSpec, code, body, i, k, out, offset) && i < |body| && body[i].ImportDeclaration?
    ensures
      var start, raw := body[i].start, body[i].raw;
      && |raw| >= 2 && 0 <= start + offset && start + offset + |raw| <= |out|
      && var v := Virtual(revealSpec, raw);
      LoopInvariant(revealSpec, code, body, i + 1, k + 1,
                    Splice(out, start + offset, |raw|, v), offset + |v| - |raw|)
  {
    var spans := ImportSpans(body);
    var lits := VirtualLiterals(revealSpec, spans);
    ImportSpansStep(body, i, k);
    var start, raw := body[i].start, body[i].raw;
    assert spans[k] == Span(start, raw);
    var v := Virtual(revealSpec, raw);
    VirtualLiteralAt(revealSpec, spans, k);
    SpliceKeepsProgress(code, spans, lits, k, out, offset, start, raw, v);
    assert Progress(code, spans, lits, k + 1, Splice(out, start + offset, |raw|, v), offset + |v| - |raw|);
  }

  lemma LoopDone(revealSpec: string -> string, code: string, body: seq<Stmt>, k: nat, out: string, offset: int)
    requires LoopInvariant(revealSpec, code, body, |body|, k, out, offset)
    ensures
      var spans := ImportSpans(body);
      var lits := VirtualLiterals(revealSpec, spans);
      && out == Rewritten(code, spans, lits, |spans|)
      && |out| == |code| + Drift(spans, lits, |spans|)
  {
    assert body[..|body|] == body;
    ProgressDone(code, ImportSpans(body), VirtualLiterals(revealSpec, ImportSpans(body)), out, offset);
  }

  /**
    The loop of `replaceImports`: walks the statements, and for each import
    declaration splices its new literal in at `start + offset`, then adds the
    length change to `offset`.
   */
  method ReplaceImports(revealSpec: string -> string, code: string, body: seq<Stmt>) returns (out: string)
    requires WellFormed(code, ImportSpans(body))
    ensures
      var spans := ImportSpans(body);
      var lits := VirtualLiterals(revealSpec, spans);
      && out == Rewritten(code, spans, lits, |spans|)
      && |out| == |code| + Drift(spans, lits, |spans|)
  {
    ghost var k := 0;
    out := code;
    var offset := 0;
    for i := 0 to |body|
      invariant LoopInvariant(revealSpec, code, body, i, k, out, offset)
    {
      if body[i].ImportDeclaration? {
        LoopSplice(revealSpec, code, body, i, k, out, offset);
        var start, raw := body[i].start, body[i].raw;
        var v := Virtual(revealSpec, raw);
        out := Splice(out, start + offset, |raw|, v);
        offset := offset + |v| - |raw|;
        k := k + 1;
      } else {
        LoopSkip(revealSpec, code, body, i, k, out, offset);
      }
    }
    LoopDone(revealSpec, code, body, k, out, offset);
  }

  /** A byte of the gap before literal k sits inside `Head(k + 1)`, shifted by the drift of the first k literals. */
  lemma GapByte(code: string, spans: seq<Span>, lits: seq<string>, k: nat, p: nat)
    requires WellFormed(code, spans) && |lits| == |spans| && k < |spans|
    requires EndOf(spans, k) <= p < spans[k].start
    ensures
      var next := Head(code, spans, lits, k + 1);
      0 <= p + Drift(spans, lits, k) < |next| && next[p + Drift(spans, lits, k)] == code[p]
  {
    HeadLength(code, spans, lits, k);
    var head := Head(code, spans, lits, k);
    var e := EndOf(spans, k);
    var gap := code[e..spans[k].start];
    assert Head(code, spans, lits, k + 1) == head + gap + lits[k];
    assert gap[p - e] == code[p];
  }

  /**
    Every byte outside the import literals is kept: a byte at position p that
    lies between the k-th and the (k+1)-th literal reappears at p shifted by the
    drift of the first k literals.
   */
  lemma RewrittenKeepsOutside(code: string, spans: seq<Span>, lits: seq<string>, k: nat, p: nat)
    requires WellFormed(code, spans) && |lits| == |spans| && k <= |spans|
    requires EndOf(spans, k) <= p < (if k < |spans| then spans[k].start else |code|)
    ensures
      var out := Rewritten(code, spans, lits, |spans|);
      && 0 <= p + Drift(spans, lits, k) < |out|
      && out[p + Drift(spans, lits, k)] == code[p]
  {
    if k < |spans| {
      GapInRewritten(code, spans, lits, k, p);
    } else {
      TailByte(code, spans, lits, p);
    }
  }

  /** A byte of the gap before literal k, in the fully rewritten text. */
  lemma GapInRewritten(code: string, spans: seq<Span>, lits: seq<string>, k: nat, p: nat)
    requires WellFormed(code, spans) && |lits| == |spans| && k < |spans|
    requires EndOf(spans, k) <= p < spans[k].start
    ensures
      var out := Rewritten(code, spans, lits, |spans|);
      && 0 <= p + Drift(spans, lits, k) < |out|
      && out[p + Drift(spans, lits, k)] == code[p]
  {
    GapByte(code, spans, lits, k, p);
    HeadInRewritten(code, spans, lits, k + 1);
    PrefixByte(Head(code, spans, lits, k + 1), Rewritten(code, spans, lits, |spans|), p + Drift(spans, lits, k));
  }

  lemma PrefixByte(pre: string, whole: string, q: nat)
    requires pre <= whole && q < |pre|
    ensures q < |whole| && whole[q] == pre[q]
  {
  }

  /** A byte after the last literal sits in the copied tail, shifted by the whole drift. */
  lemma TailByte(code: string, spans: seq<Span>, lits: seq<string>, p: nat)
    requires WellFormed(code, spans) && |lits| == |spans|
    requires EndOf(spans, |spans|) <= p < |code|
    ensures
      var out := Rewritten(code, spans, lits, |spans|);
      && 0 <= p + Drift(spans, lits, |spans|) < |out|
      && out[p + Drift(spans, lits, |spans|)] == code[p]
  {
    var n := |spans|;
    HeadLength(code, spans, lits, n);
    var e := EndOf(spans, n);
    assert code[e..][p - e] == code[p];
  }

  lemma InsidePrefix(pre: string, x: string, whole: string)
    requires pre + x <= whole
    ensures whole[|pre|..|pre| + |x|] == x
  {
    assert whole[|pre|..|pre| + |x|] == (pre + x)[|pre|..];
  }

  /** `Head(k + 1)` ends with `lits[k]`, which starts at the k-th literal's start shifted by the drift before it. */
  lemma HeadEndsWithLiteral(code: string, spans: seq<Span>, lits: seq<string>, k: nat)
    requires WellFormed(code, spans) && |lits| == |spans| && k < |spans|
    ensures
      var pre := Head(code, spans, lits, k) + code[EndOf(spans, k)..spans[k].start];
      && Head(code, spans, lits, k + 1) == pre + lits[k]
      && |pre| == spans[k].start + Drift(spans, lits, k)
  {
    HeadLength(code, spans, lits, k);
  }

  /** The k-th literal is replaced by `lits[k]`, at its start shifted by the drift before it. */
  lemma RewrittenLiteral(code: string, spans: seq<Span>, lits: seq<string>, k: nat)
    requires WellFormed(code, spans) && |lits| == |spans| && k < |spans|
    ensures
      var out := Rewritten(code, spans, lits, |spans|);
      var q := spans[k].start + Drift(spans, lits, k);
      && 0 <= q && q + |lits[k]| <= |out| && out[q..q + |lits[k]|] == lits[k]
  {
    HeadEndsWithLiteral(code, spans, lits, k);
    HeadInRewritten(code, spans, lits, k + 1);
    var pre := Head(code, spans, lits, k) + code[EndOf(spans, k)..spans[k].start];
    InsidePrefix(pre, lits[k], Rewritten(code, spans, lits, |spans|));
  }

  lemma {:induction false} UnchangedHead(code: string, spans: seq<Span>, lits: seq<string>, k: nat)
    requires WellFormed(code, spans) && |lits| == |spans| && k <= |spans|
    requires forall j :: 0 <= j < |spans| ==> lits[j] == code[spans[j].start..SpanEnd(spans[j])]
    ensures Head(code, spans, lits, k) == code[..EndOf(spans, k)]
  {
    if k > 0 {
      UnchangedHead(code, spans, lits, k - 1);
      var sp := spans[k - 1];
      assert code[..SpanEnd(sp)] == code[..EndOf(spans, k - 1)] + code[EndOf(spans, k - 1)..sp.start] + code[sp.start..SpanEnd(sp)];
    }
  }

  lemma UnchangedRewritten(code: string, spans: seq<Span>, lits: seq<string>)
    requires WellFormed(code, spans) && |lits| == |spans|
    requires forall j :: 0 <= j < |spans| ==> lits[j] == code[spans[j].start..SpanEnd(spans[j])]
    ensures Rewritten(code, spans, lits, |spans|) == code
  {
    UnchangedHead(code, spans, lits, |spans|);
    assert code == code[..EndOf(spans, |spans|)] + code[EndOf(spans, |spans|)..];
  }

  lemma KeptLiteralsUnchanged(revealSpec: string -> string, code: string, spans: seq<Span>)
    requires WellFormed(code, spans) && LiteralsAsWritten(code, spans)
    requires forall j :: 0 <= j < |spans| ==> revealSpec(Specifier(spans[j].raw)) == Specifier(spans[j].raw)
    ensures
      var lits := VirtualLiterals(revealSpec, spans);
      forall j :: 0 <= j < |spans| ==> lits[j] == code[spans[j].start..SpanEnd(spans[j])]
  {
    forall j | 0 <= j < |spans|
      ensures VirtualLiterals(revealSpec, spans)[j] == code[spans[j].start..SpanEnd(spans[j])]
    {
      VirtualLiteralAt(revealSpec, spans, j);
      VirtualKeepsLiteral(revealSpec, spans[j].raw);
    }
  }

  /** Imports whose specifiers `revealSpec` leaves as they are keep the text byte for byte as it was. */
  lemma KeptImportsKeepText(revealSpec: string -> string, code: string, spans: seq<Span>)
    requires WellFormed(code, spans) && LiteralsAsWritten(code, spans)
    requires forall j :: 0 <= j < |spans| ==> revealSpec(Specifier(spans[j].raw)) == Specifier(spans[j].raw)
    ensures Rewritten(code, spans, VirtualLiterals(revealSpec, spans), |spans|) == code
  {
    KeptLiteralsUnchanged(revealSpec, code, spans);
    UnchangedRewritten(code, spans, VirtualLiterals(revealSpec, spans));
  }
}
