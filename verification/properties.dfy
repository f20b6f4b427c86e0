/**
 What Myprintf promises its callers, proved about the model in
 TrackedBuffer: literal copy, left-to-right consumption of arguments, the
 behaviour of each verb, the faults, and how calls and nodes compose.
 */
module TrackedBufferProperties {
  import opened Bytes
  import opened Template
  import opened TrackedBuffer
  import Utf8

  // ----- Unfolding the scanner on suffixes of the format -----

  /** Scanning from byte `i` is scanning the suffix that starts there. */
  lemma {:induction false} ScanSuffix(f: seq<byte>, values: seq<Arg>, i: nat, fieldnum: nat)
    requires i <= |f|
    ensures Run(Node(f, values), i, fieldnum) == Scan(f[i..], values, fieldnum)
    decreases |f| - i
  {
    var n, m := Node(f, values), Node(f[i..], values);
    if i == |f| {
    } else if f[i] != Percent {
      RunLiteral(n, i, fieldnum);
      RunLiteral(m, 0, fieldnum);
      ScanSuffix(f, values, i + 1, fieldnum);
      ScanSuffix(f[i..], values, 1, fieldnum);
      assert f[i..][1..] == f[i + 1..];
    } else if i + 1 == |f| {
    } else {
      RunDirective(n, i, fieldnum);
      RunDirective(m, 0, fieldnum + 0);
      ScanSuffix(f, values, i + 2, fieldnum + 1);
      ScanSuffix(f[i..], values, 2, fieldnum + 1);
      assert f[i..][2..] == f[i + 2..];
    }
  }

  lemma {:induction false} ScanLiteral1(f: seq<byte>, values: seq<Arg>, fieldnum: nat)
    requires |f| > 0 && f[0] != Percent
    ensures Scan(f, values, fieldnum) == Prepend([f[0]], Scan(f[1..], values, fieldnum))
  {
    RunLiteral(Node(f, values), 0, fieldnum);
    ScanSuffix(f, values, 1, fieldnum);
  }

  lemma {:induction false} ScanDirective(f: seq<byte>, values: seq<Arg>, fieldnum: nat)
    requires |f| >= 2 && f[0] == Percent
    ensures Scan(f, values, fieldnum) == Then(Directive(f[1], values, fieldnum), Scan(f[2..], values, fieldnum + 1))
  {
    RunDirective(Node(f, values), 0, fieldnum);
    ScanSuffix(f, values, 2, fieldnum + 1);
  }

  lemma {:induction false} PrependThen(p: seq<byte>, a: Outcome, b: Outcome)
    ensures Prepend(p, Then(a, b)) == Then(Prepend(p, a), b)
  {
    if a.Done? {
      PrependPrepend(p, a.out, b);
    }
  }

  lemma {:induction false} ThenThen(a: Outcome, b: Outcome, c: Outcome)
    ensures Then(a, Then(b, c)) == Then(Then(a, b), c)
  {
    if a.Done? {
      PrependThen(a.out, b, c);
    }
  }

  lemma {:induction false} ThenDone(a: Outcome)
    ensures Then(a, Done([])) == a
  {
    if a.Done? {
      assert a.out + [] == a.out;
    }
  }

  // ----- Literal text -----

  /** A format without '%' is written exactly as it is, whatever the arguments. */
  lemma {:induction false} LiteralCopy(f: seq<byte>, values: seq<Arg>, fieldnum: nat)
    requires NoPercent(f)
    ensures Scan(f, values, fieldnum) == Done(f)
  {
    var n := Node(f, values);
    RunLiterals(n, 0, |f|, fieldnum);
    assert f[0..|f|] == f;
    assert f + [] == f;
  }

  /** A directive after a literal run: the run is written, then the directive, then the rest. */
  lemma {:induction false} DirectiveAfterLiteral(p: seq<byte>, verb: byte, rest: seq<byte>, values: seq<Arg>, fieldnum: nat)
    requires NoPercent(p)
    ensures Scan(p + [Percent, verb] + rest, values, fieldnum)
         == Prepend(p, Then(Directive(verb, values, fieldnum), Scan(rest, values, fieldnum + 1)))
  {
    var f := p + [Percent, verb] + rest;
    var n := Node(f, values);
    assert f[0..|p|] == p;
    RunLiterals(n, 0, |p|, fieldnum);
    ScanSuffix(f, values, |p|, fieldnum);
    var g := f[|p|..];
    assert g == [Percent, verb] + rest;
    ScanDirective(g, values, fieldnum);
    assert g[2..] == rest;
  }

  // ----- Composition -----

  /**
   The scanner reads a complete format and what follows it one after the
   other: the second part starts at the argument after the first part's last.
   */
  lemma {:induction false} ScanAppend(f1: seq<byte>, f2: seq<byte>, values: seq<Arg>, fieldnum: nat)
    requires Complete(f1)
    ensures Scan(f1 + f2, values, fieldnum)
         == Then(Scan(f1, values, fieldnum), Scan(f2, values, fieldnum + DirectiveCount(f1)))
  {
    ScanAppendAt(f1, f2, values, fieldnum, fieldnum + DirectiveCount(f1));
  }

  /** ScanAppend with the second part's first argument `k` named. */
  lemma {:induction false} ScanAppendAt(f1: seq<byte>, f2: seq<byte>, values: seq<Arg>, fieldnum: nat, k: nat)
    requires Complete(f1) && k == fieldnum + DirectiveCount(f1)
    ensures Scan(f1 + f2, values, fieldnum) == Then(Scan(f1, values, fieldnum), Scan(f2, values, k))
    decreases |f1|
  {
    if |f1| == 0 {
      ScanEmptyAppend(f1, f2, values, k);
    } else if f1[0] != Percent {
      CountLiteral(f1);
      ScanAppendAt(f1[1..], f2, values, fieldnum, k);
      ScanAppendLiteral(f1, f2, values, fieldnum, k);
    } else {
      CountDirective(f1);
      ScanAppendAt(f1[2..], f2, values, fieldnum + 1, k);
      ScanAppendDirective(f1, f2, values, fieldnum, k);
    }
  }

  lemma {:induction false} ScanEmptyAppend(f1: seq<byte>, f2: seq<byte>, values: seq<Arg>, k: nat)
    requires |f1| == 0
    ensures Scan(f1 + f2, values, k) == Then(Scan(f1, values, k), Scan(f2, values, k))
  {
    assert f1 + f2 == f2;
    assert Scan(f1, values, k) == Done([]);
    assert [] + Scan(f2, values, k).Written() == Scan(f2, values, k).Written();
  }

  /** The literal step of ScanAppendAt, from the claim for the format without its first byte. */
  lemma {:induction false} ScanAppendLiteral(f1: seq<byte>, f2: seq<byte>, values: seq<Arg>, fieldnum: nat, k: nat)
    requires |f1| > 0 && f1[0] != Percent
    requires Scan(f1[1..] + f2, values, fieldnum) == Then(Scan(f1[1..], values, fieldnum), Scan(f2, values, k))
    ensures Scan(f1 + f2, values, fieldnum) == Then(Scan(f1, values, fieldnum), Scan(f2, values, k))
  {
    ScanLiteralAppend(f1, f2, values, fieldnum);
    ScanLiteral1(f1, values, fieldnum);
    PrependThen([f1[0]], Scan(f1[1..], values, fieldnum), Scan(f2, values, k));
  }

  /** The directive step of ScanAppendAt, from the claim for the format without its first directive. */
  lemma {:induction false} ScanAppendDirective(f1: seq<byte>, f2: seq<byte>, values: seq<Arg>, fieldnum: nat, k: nat)
    requires |f1| >= 2 && f1[0] == Percent
    requires Scan(f1[2..] + f2, values, fieldnum + 1) == Then(Scan(f1[2..], values, fieldnum + 1), Scan(f2, values, k))
    ensures Scan(f1 + f2, values, fieldnum) == Then(Scan(f1, values, fieldnum), Scan(f2, values, k))
  {
    ScanDirectiveAppend(f1, f2, values, fieldnum);
    ScanDirective(f1, values, fieldnum);
    ThenThen(Directive(f1[1], values, fieldnum), Scan(f1[2..], values, fieldnum + 1), Scan(f2, values, k));
  }

  /** A literal byte at the head of a concatenation is copied before the scan of the rest. */
  lemma {:induction false} ScanLiteralAppend(f1: seq<byte>, f2: seq<byte>, values: seq<Arg>, fieldnum: nat)
    requires |f1| > 0 && f1[0] != Percent
    ensures Scan(f1 + f2, values, fieldnum) == Prepend([f1[0]], Scan(f1[1..] + f2, values, fieldnum))
  {
    var g := f1 + f2;
    assert g[0] == f1[0] && g[1..] == f1[1..] + f2;
    ScanLiteral1(g, values, fieldnum);
  }

  /** A directive at the head of a concatenation runs before the scan of the rest. */
  lemma {:induction false} ScanDirectiveAppend(f1: seq<byte>, f2: seq<byte>, values: seq<Arg>, fieldnum: nat)
    requires |f1| >= 2 && f1[0] == Percent
    ensures Scan(f1 + f2, values, fieldnum)
         == Then(Directive(f1[1], values, fieldnum), Scan(f1[2..] + f2, values, fieldnum + 1))
  {
    var g := f1 + f2;
    assert g[0] == Percent && g[1] == f1[1] && g[2..] == f1[2..] + f2;
    ScanDirective(g, values, fieldnum);
  }

  /** After a fault nothing more is written: whatever follows a complete format is never read. */
  lemma {:induction false} FaultStopsOutput(f1: seq<byte>, f2: seq<byte>, values: seq<Arg>)
    requires Complete(f1) && Interp(f1, values).Panic?
    ensures Interp(f1 + f2, values) == Interp(f1, values)
  {
    ScanAppend(f1, f2, values, 0);
  }

  /** The outputs of the tokens of a format, in order, the i-th directive reading argument `fieldnum + i`. */
  function Eval(ts: seq<Token>, values: seq<Arg>, fieldnum: nat): Outcome {
    if |ts| == 0 then Done([])
    else match ts[0]
      case Lit(run) => Prepend(run, Eval(ts[1..], values, fieldnum))
      case Verb(v) => Then(Directive(v, values, fieldnum), Eval(ts[1..], values, fieldnum + 1))
  }

  /**
   Myprintf's output is the literal spans and the directives' outputs
   concatenated in the order of the format, each directive consuming the next
   argument; a format that Tokenize rejects (a '%' at its end) panics.
   */
  lemma {:induction false} ScanByTokens(f: seq<byte>, values: seq<Arg>, fieldnum: nat)
    ensures Tokenize(f).Some? ==> Scan(f, values, fieldnum) == Eval(Tokenize(f).value, values, fieldnum)
    ensures Tokenize(f).None? ==> Scan(f, values, fieldnum).Panic?
    decreases |f|
  {
    TokenizeComplete(f);
    if |f| == 0 || Tokenize(f).None? {
    } else if f[0] == Percent {
      ScanByTokens(f[2..], values, fieldnum + 1);
      TokensDirective(f, values, fieldnum);
    } else {
      var j := LiteralEnd(f);
      ScanByTokens(f[j..], values, fieldnum);
      TokensLiteral(f, j, values, fieldnum);
    }
  }

  /** ScanByTokens for a format that starts with a directive, given it for the rest. */
  lemma {:induction false} TokensDirective(f: seq<byte>, values: seq<Arg>, fieldnum: nat)
    requires |f| >= 2 && f[0] == Percent && Tokenize(f).Some?
    requires Scan(f[2..], values, fieldnum + 1) == Eval(Tokenize(f[2..]).value, values, fieldnum + 1)
    ensures Scan(f, values, fieldnum) == Eval(Tokenize(f).value, values, fieldnum)
  {
    ScanDirective(f, values, fieldnum);
    assert Tokenize(f).value[1..] == Tokenize(f[2..]).value;
  }

  /** ScanByTokens for a format that starts with the literal run `f[..j]`, given it for the rest. */
  lemma {:induction false} TokensLiteral(f: seq<byte>, j: nat, values: seq<Arg>, fieldnum: nat)
    requires |f| > 0 && f[0] != Percent && j == LiteralEnd(f) && Tokenize(f).Some?
    requires Scan(f[j..], values, fieldnum) == Eval(Tokenize(f[j..]).value, values, fieldnum)
    ensures Scan(f, values, fieldnum) == Eval(Tokenize(f).value, values, fieldnum)
  {
    var f1, f2 := f[..j], f[j..];
    LiteralTokenShape(f, j);
    ScanLiteralSplit(f, f1, f2, values, fieldnum);
    EvalLiteral(f1, Tokenize(f2).value, values, fieldnum);
  }

  /** The first token of a format starting with a literal is that run, and the run splits the format. */
  lemma {:induction false} LiteralTokenShape(f: seq<byte>, j: nat)
    requires |f| > 0 && f[0] != Percent && j == LiteralEnd(f) && Tokenize(f).Some?
    ensures f == f[..j] + f[j..] && NoPercent(f[..j])
    ensures Tokenize(f[j..]).Some? && Tokenize(f).value == [Lit(f[..j])] + Tokenize(f[j..]).value
  {
    LiteralRun(f, j);
  }

  /** A format that is a literal run `f1` and then `f2` writes `f1` before the scan of `f2`. */
  lemma {:induction false} ScanLiteralSplit(f: seq<byte>, f1: seq<byte>, f2: seq<byte>, values: seq<Arg>, fieldnum: nat)
    requires f == f1 + f2 && NoPercent(f1)
    ensures Scan(f, values, fieldnum) == Prepend(f1, Scan(f2, values, fieldnum))
  {
    NoPercentComplete(f1);
    NoPercentCount(f1);
    ScanAppendAt(f1, f2, values, fieldnum, fieldnum);
    LiteralCopy(f1, values, fieldnum);
  }

  lemma {:induction false} EvalLiteral(run: seq<byte>, ts: seq<Token>, values: seq<Arg>, fieldnum: nat)
    ensures Eval([Lit(run)] + ts, values, fieldnum) == Prepend(run, Eval(ts, values, fieldnum))
  {
    assert ([Lit(run)] + ts)[1..] == ts;
  }

  lemma {:induction false} NoPercentComplete(s: seq<byte>)
    requires NoPercent(s)
    ensures Complete(s)
    decreases |s|
  {
    if |s| > 0 {
      NoPercentComplete(s[1..]);
    }
  }

  lemma {:induction false} NoPercentCount(s: seq<byte>)
    requires NoPercent(s)
    ensures DirectiveCount(s) == 0
    decreases |s|
  {
    if |s| > 0 {
      NoPercentCount(s[1..]);
    }
  }

  // ----- Arguments -----

  /** Arguments past the last directive are never read. */
  lemma {:induction false} ExtraArgumentsIgnored(f: seq<byte>, values: seq<Arg>, extra: seq<Arg>, fieldnum: nat)
    requires fieldnum + DirectiveCount(f) <= |values|
    ensures Scan(f, values + extra, fieldnum) == Scan(f, values, fieldnum)
    decreases |f|
  {
    if |f| == 0 {
    } else if f[0] != Percent {
      ExtraArgumentsIgnored(f[1..], values, extra, fieldnum);
      ExtraLiteral(f, values, extra, fieldnum);
    } else if |f| == 1 {
    } else {
      ExtraArgumentsIgnored(f[2..], values, extra, fieldnum + 1);
      ExtraDirective(f, values, extra, fieldnum);
    }
  }

  lemma {:induction false} ExtraLiteral(f: seq<byte>, values: seq<Arg>, extra: seq<Arg>, fieldnum: nat)
    requires |f| > 0 && f[0] != Percent
    requires Scan(f[1..], values + extra, fieldnum) == Scan(f[1..], values, fieldnum)
    ensures Scan(f, values + extra, fieldnum) == Scan(f, values, fieldnum)
  {
    ScanLiteral1(f, values, fieldnum);
    ScanLiteral1(f, values + extra, fieldnum);
  }

  lemma {:induction false} ExtraDirective(f: seq<byte>, values: seq<Arg>, extra: seq<Arg>, fieldnum: nat)
    requires |f| >= 2 && f[0] == Percent && fieldnum < |values|
    requires Scan(f[2..], values + extra, fieldnum + 1) == Scan(f[2..], values, fieldnum + 1)
    ensures Scan(f, values + extra, fieldnum) == Scan(f, values, fieldnum)
  {
    ScanDirective(f, values, fieldnum);
    ScanDirective(f, values + extra, fieldnum);
    DirectiveExtraArguments(f[1], values, extra, fieldnum);
  }

  lemma {:induction false} DirectiveExtraArguments(verb: byte, values: seq<Arg>, extra: seq<Arg>, fieldnum: nat)
    requires fieldnum < |values|
    ensures Directive(verb, values + extra, fieldnum) == Directive(verb, values, fieldnum)
  {
    assert (values + extra)[fieldnum] == values[fieldnum];
  }

  /** Two outcomes that leave the buffer the same and either both panic or both do not. */
  predicate SameEffect(a: Outcome, b: Outcome) {
    a.Done? == b.Done? && a.Written() == b.Written()
  }

  lemma {:induction false} ApplyShift(verb: byte, v: Arg, i: nat, j: nat)
    requires IsKnownVerb(verb)
    ensures SameEffect(Apply(verb, v, i), Apply(verb, v, j))
  {
  }

  /** Scanning with arguments `pre + values` from argument |pre| is scanning `values` from 0. */
  lemma {:induction false} ShiftArguments(f: seq<byte>, pre: seq<Arg>, values: seq<Arg>, fieldnum: nat)
    ensures SameEffect(Scan(f, pre + values, |pre| + fieldnum), Scan(f, values, fieldnum))
  {
    ShiftArgumentsAt(f, pre, values, fieldnum, |pre| + fieldnum);
  }

  /** ShiftArguments with the shifted argument position `k` named. */
  lemma {:induction false} ShiftArgumentsAt(f: seq<byte>, pre: seq<Arg>, values: seq<Arg>, fieldnum: nat, k: nat)
    requires k == |pre| + fieldnum
    ensures SameEffect(Scan(f, pre + values, k), Scan(f, values, fieldnum))
    decreases |f|
  {
    var all := pre + values;
    if |f| == 0 {
    } else if f[0] != Percent {
      ShiftArgumentsAt(f[1..], pre, values, fieldnum, k);
      ScanLiteral1(f, values, fieldnum);
      ScanLiteral1(f, all, k);
      PrependSame([f[0]], Scan(f[1..], all, k), Scan(f[1..], values, fieldnum));
    } else if |f| == 1 {
    } else {
      ShiftArgumentsAt(f[2..], pre, values, fieldnum + 1, k + 1);
      ScanDirective(f, values, fieldnum);
      ScanDirective(f, all, k);
      DirectiveShift(f[1], pre, values, fieldnum, k);
      ThenSame(Directive(f[1], all, k), Directive(f[1], values, fieldnum),
               Scan(f[2..], all, k + 1), Scan(f[2..], values, fieldnum + 1));
    }
  }

  /** A directive reads its argument by position: the arguments before `pre` ends never matter. */
  lemma {:induction false} DirectiveShift(verb: byte, pre: seq<Arg>, values: seq<Arg>, fieldnum: nat, k: nat)
    requires k == |pre| + fieldnum
    ensures SameEffect(Directive(verb, pre + values, k), Directive(verb, values, fieldnum))
  {
    if IsKnownVerb(verb) && fieldnum < |values| {
      assert (pre + values)[k] == values[fieldnum];
      ApplyShift(verb, values[fieldnum], k, fieldnum);
    }
  }

  lemma {:induction false} PrependSame(p: seq<byte>, a: Outcome, b: Outcome)
    requires SameEffect(a, b)
    ensures SameEffect(Prepend(p, a), Prepend(p, b))
  {
  }

  lemma {:induction false} ThenSame(a1: Outcome, a2: Outcome, b1: Outcome, b2: Outcome)
    requires SameEffect(a1, a2) && SameEffect(b1, b2)
    ensures SameEffect(Then(a1, b1), Then(a2, b2))
  {
  }

  /**
   Two Myprintf calls in a row on one buffer write what one call writes with
   the formats and the argument lists concatenated, provided the first
   format is complete and consumes all of its arguments. A node whose Format
   makes several calls therefore renders as a node with one template.
   */
  lemma {:induction false} SequentialCalls(f1: seq<byte>, a1: seq<Arg>, f2: seq<byte>, a2: seq<Arg>)
    requires Complete(f1) && DirectiveCount(f1) == |a1|
    ensures SameEffect(Then(Interp(f1, a1), Interp(f2, a2)), Interp(f1 + f2, a1 + a2))
  {
    var first := Interp(f1, a1);
    ScanAppend(f1, f2, a1 + a2, 0);
    ExtraArgumentsIgnored(f1, a1, a2, 0);
    assert Scan(f1, a1 + a2, 0) == first;
    ShiftArguments(f2, a1, a2, 0);
    assert |a1| + 0 == |a1|;
    var s1, s2 := Scan(f2, a1 + a2, |a1|), Interp(f2, a2);
    assert SameEffect(s1, s2);
  }

  // ----- Faults -----

  /** A '%' as the last byte of the format panics once the text before it is written. */
  lemma {:induction false} DanglingPercentPanics(p: seq<byte>, values: seq<Arg>)
    requires NoPercent(p)
    ensures Interp(p + [Percent], values) == Panic(DanglingPercent, p)
  {
    var f := p + [Percent];
    assert f[0..|p|] == p;
    RunLiterals(Node(f, values), 0, |p|, 0);
  }

  /**
   A verb other than c, s, v and a panics, '%%' included, before any argument
   is read: it panics even when no arguments remain, and nothing after it is written.
   */
  lemma {:induction false} UnsupportedVerbPanics(p: seq<byte>, verb: byte, rest: seq<byte>, values: seq<Arg>, fieldnum: nat)
    requires NoPercent(p) && !IsKnownVerb(verb)
    ensures Scan(p + [Percent, verb] + rest, values, fieldnum) == Panic(UnsupportedDirective(verb), p)
  {
    DirectiveAfterLiteral(p, verb, rest, values, fieldnum);
  }

  /** There is no escape for a literal '%'. */
  lemma {:induction false} PercentPercentPanics(p: seq<byte>, rest: seq<byte>, values: seq<Arg>)
    requires NoPercent(p)
    ensures Interp(p + [Percent, Percent] + rest, values) == Panic(UnsupportedDirective(Percent), p)
  {
    UnsupportedVerbPanics(p, Percent, rest, values, 0);
  }

  /** A known verb with no argument left panics at `values[fieldnum]`. */
  lemma {:induction false} MissingArgumentPanics(p: seq<byte>, verb: byte, rest: seq<byte>, values: seq<Arg>, fieldnum: nat)
    requires NoPercent(p) && IsKnownVerb(verb) && fieldnum >= |values|
    ensures Scan(p + [Percent, verb] + rest, values, fieldnum) == Panic(MissingArgument(fieldnum), p)
  {
    DirectiveAfterLiteral(p, verb, rest, values, fieldnum);
  }

  /** A successful call met no dangling '%' and had an argument for every directive. */
  lemma {:induction false} MalformedCallsPanic(f: seq<byte>, values: seq<Arg>)
    ensures !Complete(f) ==> Interp(f, values).Panic?
    ensures DirectiveCount(f) > |values| ==> Interp(f, values).Panic?
  {
    assert f[0..] == f;
  }

  // ----- The verbs -----

  lemma {:induction false} SingleDirective(verb: byte, values: seq<Arg>)
    ensures Interp([Percent, verb], values) == Directive(verb, values, 0)
  {
    DirectiveAfterLiteral([], verb, [], values, 0);
    assert [] + [Percent, verb] + [] == [Percent, verb];
    assert Scan([], values, 1) == Done([]);
    ThenDone(Directive(verb, values, 0));
  }

  /**
   "%c" writes one byte for a byte, the UTF-8 encoding of a rune (U+FFFD for
   a rune that is no scalar value), and panics on any other type.
   */
  lemma {:induction false} CharVerb(a: Arg, more: seq<Arg>)
    ensures a.AByte? ==> Interp([Percent, VerbChar], [a] + more) == Done([a.b])
    ensures a.ARune? ==> Interp([Percent, VerbChar], [a] + more).Done?
    ensures a.ARune? ==> var out := Interp([Percent, VerbChar], [a] + more).out;
      Utf8.WellFormed(out) && Utf8.Decode(out) == Utf8.Effective(a.r)
    ensures !a.AByte? && !a.ARune? ==> Interp([Percent, VerbChar], [a] + more) == Panic(WrongType(VerbChar, 0), [])
  {
    SingleDirective(VerbChar, [a] + more);
    if a.ARune? {
      Utf8.EncodeDecode(a.r);
    }
  }

  /** "%s" writes a []byte or a string byte for byte and panics on any other type. */
  lemma {:induction false} StringVerb(a: Arg, more: seq<Arg>)
    ensures a.ABytes? ==> Interp([Percent, VerbString], [a] + more) == Done(a.bs)
    ensures a.AStr? ==> Interp([Percent, VerbString], [a] + more) == Done(a.s)
    ensures !a.ABytes? && !a.AStr? ==> Interp([Percent, VerbString], [a] + more) == Panic(WrongType(VerbString, 0), [])
  {
    SingleDirective(VerbString, [a] + more);
  }

  /** "%a" writes a string byte for byte, with no escaping, and panics on anything else, a []byte included. */
  lemma {:induction false} TrackedVerb(a: Arg, more: seq<Arg>)
    ensures a.AStr? ==> Interp([Percent, VerbTracked], [a] + more) == Done(a.s)
    ensures !a.AStr? ==> Interp([Percent, VerbTracked], [a] + more) == Panic(WrongType(VerbTracked, 0), [])
  {
    SingleDirective(VerbTracked, [a] + more);
  }

  /** "%v" writes exactly the node's own rendering and panics when the argument is not a node. */
  lemma {:induction false} NodeVerb(a: Arg, more: seq<Arg>)
    ensures a.ANode? ==> Interp([Percent, VerbNode], [a] + more) == Render(a.n)
    ensures !a.ANode? ==> Interp([Percent, VerbNode], [a] + more) == Panic(WrongType(VerbNode, 0), [])
  {
    SingleDirective(VerbNode, [a] + more);
  }

  // ----- Nodes with children -----

  /** A template of literal spans separated by "%v" directives. */
  function Skeleton(lits: seq<seq<byte>>): seq<byte>
    requires |lits| >= 1
  {
    if |lits| == 1 then lits[0] else lits[0] + [Percent, VerbNode] + Skeleton(lits[1..])
  }

  /** The spans with the children's outputs between them. */
  function Interleave(lits: seq<seq<byte>>, outs: seq<seq<byte>>): seq<byte>
    requires |lits| == |outs| + 1
  {
    if |outs| == 0 then lits[0] else lits[0] + outs[0] + Interleave(lits[1..], outs[1..])
  }

  function Wrap(kids: seq<Node>): (args: seq<Arg>)
    ensures |args| == |kids|
    ensures forall j | 0 <= j < |kids| :: args[j] == ANode(kids[j])
  {
    if |kids| == 0 then [] else [ANode(kids[0])] + Wrap(kids[1..])
  }

  predicate AllRender(kids: seq<Node>) {
    forall j | 0 <= j < |kids| :: Render(kids[j]).Done?
  }

  function Outputs(kids: seq<Node>): (outs: seq<seq<byte>>)
    requires AllRender(kids)
    ensures |outs| == |kids|
  {
    if |kids| == 0 then [] else [Render(kids[0]).out] + Outputs(kids[1..])
  }

  /**
   A parent that renders its children through "%v" directives writes its
   literal spans with each child's own rendering between them, in order.
   */
  lemma {:induction false} ChildrenCompose(lits: seq<seq<byte>>, kids: seq<Node>, pre: seq<Arg>)
    requires |lits| == |kids| + 1
    requires forall j | 0 <= j < |lits| :: NoPercent(lits[j])
    requires AllRender(kids)
    ensures Scan(Skeleton(lits), pre + Wrap(kids), |pre|) == Done(Interleave(lits, Outputs(kids)))
    decreases |kids|
  {
    if |kids| == 0 {
      LiteralCopy(lits[0], pre + Wrap(kids), |pre|);
    } else {
      var pre' := pre + [ANode(kids[0])];
      assert AllRender(kids[1..]);
      ChildrenCompose(lits[1..], kids[1..], pre');
      ChildrenStep(lits, kids, pre);
    }
  }

  /** The step of ChildrenCompose: the first span, the first child, then the rest from the next argument. */
  lemma {:induction false} ChildrenStep(lits: seq<seq<byte>>, kids: seq<Node>, pre: seq<Arg>)
    requires |lits| == |kids| + 1 && |kids| > 0
    requires NoPercent(lits[0])
    requires AllRender(kids)
    requires Scan(Skeleton(lits[1..]), pre + [ANode(kids[0])] + Wrap(kids[1..]), |pre| + 1)
          == Done(Interleave(lits[1..], Outputs(kids[1..])))
    ensures Scan(Skeleton(lits), pre + Wrap(kids), |pre|) == Done(Interleave(lits, Outputs(kids)))
  {
    var values := pre + Wrap(kids);
    var rest := Skeleton(lits[1..]);
    var out := Render(kids[0]).out;
    var tail := Interleave(lits[1..], Outputs(kids[1..]));
    ChildrenShape(lits, kids, pre);
    DirectiveNode(values, |pre|, kids[0]);
    DirectiveAfterLiteral(lits[0], VerbNode, rest, values, |pre|);
    PrependDone(lits[0], Directive(VerbNode, values, |pre|), Scan(rest, values, |pre| + 1), out, tail);
  }

  /** A successful step followed by a successful rest, after a literal run. */
  lemma {:induction false} PrependDone(p: seq<byte>, d: Outcome, rest: Outcome, out: seq<byte>, tail: seq<byte>)
    requires d == Done(out) && rest == Done(tail)
    ensures Prepend(p, Then(d, rest)) == Done(p + out + tail)
  {
    assert p + (out + tail) == p + out + tail;
  }

  /** How the skeleton, the arguments and the expected output of a parent unfold at its first child. */
  lemma {:induction false} ChildrenShape(lits: seq<seq<byte>>, kids: seq<Node>, pre: seq<Arg>)
    requires |lits| == |kids| + 1 && |kids| > 0
    requires AllRender(kids)
    ensures Skeleton(lits) == lits[0] + [Percent, VerbNode] + Skeleton(lits[1..])
    ensures pre + [ANode(kids[0])] + Wrap(kids[1..]) == pre + Wrap(kids)
    ensures (pre + Wrap(kids))[|pre|] == ANode(kids[0])
    ensures Render(kids[0]).Done?
    ensures Interleave(lits, Outputs(kids))
         == lits[0] + Render(kids[0]).out + Interleave(lits[1..], Outputs(kids[1..]))
  {
    assert Wrap(kids) == [ANode(kids[0])] + Wrap(kids[1..]);
    assert Outputs(kids) == [Render(kids[0]).out] + Outputs(kids[1..]);
  }

  /** A "%v" directive whose argument is a node writes that node's rendering. */
  lemma {:induction false} DirectiveNode(values: seq<Arg>, fieldnum: nat, node: Node)
    requires fieldnum < |values| && values[fieldnum] == ANode(node)
    ensures Directive(VerbNode, values, fieldnum) == Render(node)
  {
  }

  /** WriteNode on a new buffer holds exactly the node's rendering. */
  method RenderToString(node: Node) returns (res: Outcome)
    ensures res == Render(node)
  {
    var buf := NewTrackedBuffer();
    res := WriteNode(buf, node);
    assert buf == [];
    if res.Done? {
      assert buf + Render(node).out == Render(node).out;
    } else {
      assert buf + Render(node).partial == Render(node).partial;
    }
  }
}
