/**
 The syntax of a Myprintf format string as the scanner reads it: maximal
 runs of bytes other than '%', each copied as one WriteString, and two-byte
 directives '%' followed by a verb byte. There is no escape for a literal
 '%': "%%" is a directive whose verb is '%'.
 */
module Template {
  import opened Bytes

  const Percent: byte := 0x25  // '%'

  datatype Option<+T> = None | Some(value: T)

  datatype Token =
    | Lit(run: seq<byte>)   // a literal span, copied verbatim
    | Verb(verb: byte)      // a directive '%' verb

  predicate NoPercent(s: seq<byte>) {
    forall j | 0 <= j < |s| :: s[j] != Percent
  }

  /** True when the scanner can read the whole of `f`: no '%' is its last byte. */
  predicate Complete(f: seq<byte>)
    decreases |f|
  {
    if |f| == 0 then true
    else if f[0] != Percent then Complete(f[1..])
    else |f| >= 2 && Complete(f[2..])
  }

  /** The number of directives the scanner meets in `f`, each of which consumes one argument. */
  function DirectiveCount(f: seq<byte>): nat
    decreases |f|
  {
    if |f| == 0 then 0
    else if f[0] != Percent then DirectiveCount(f[1..])
    else if |f| == 1 then 0
    else 1 + DirectiveCount(f[2..])
  }

  /** The inner scanning loop: the length of the longest prefix of `f` without a '%'. */
  function LiteralEnd(f: seq<byte>): (j: nat)
    ensures j <= |f|
    ensures NoPercent(f[..j])
    ensures j < |f| ==> f[j] == Percent
  {
    if |f| == 0 || f[0] == Percent then 0
    else
      var j := 1 + LiteralEnd(f[1..]);
      assert f[..j] == [f[0]] + f[1..][..j - 1];
      j
  }

  /** Splits a format string into literal runs and directives, or None when a '%' ends it. */
  function Tokenize(f: seq<byte>): Option<seq<Token>>
    decreases |f|
  {
    if |f| == 0 then Some([])
    else if f[0] == Percent then
      if |f| == 1 then None
      else match Tokenize(f[2..])
        case None => None
        case Some(ts) => Some([Verb(f[1])] + ts)
    else
      var j := LiteralEnd(f);
      match Tokenize(f[j..])
      case None => None
      case Some(ts) => Some([Lit(f[..j])] + ts)
  }

  /** Writes tokens back as format text. */
  function Detokenize(ts: seq<Token>): seq<byte> {
    if |ts| == 0 then []
    else match ts[0]
      case Lit(run) => run + Detokenize(ts[1..])
      case Verb(v) => [Percent, v] + Detokenize(ts[1..])
  }

  /** The shape Tokenize produces: nonempty literal runs without '%', never two runs in a row. */
  predicate Canonical(ts: seq<Token>) {
    && (forall j | 0 <= j < |ts| && ts[j].Lit? :: |ts[j].run| > 0 && NoPercent(ts[j].run))
    && (forall j | 0 <= j < |ts| - 1 && ts[j].Lit? :: ts[j + 1].Verb?)
  }

  function VerbCount(ts: seq<Token>): nat {
    if |ts| == 0 then 0 else (if ts[0].Verb? then 1 else 0) + VerbCount(ts[1..])
  }

  /** A literal byte at the head of a format adds no directive. */
  lemma CountLiteral(f: seq<byte>)
    requires |f| > 0 && f[0] != Percent
    ensures DirectiveCount(f) == DirectiveCount(f[1..])
  {
  }

  /** A directive at the head of a format adds one. */
  lemma CountDirective(f: seq<byte>)
    requires |f| >= 2 && f[0] == Percent
    ensures DirectiveCount(f) == 1 + DirectiveCount(f[2..])
  {
  }

  lemma {:induction false} LiteralRun(f: seq<byte>, j: nat)
    requires j <= |f| && NoPercent(f[..j])
    ensures Complete(f) == Complete(f[j..])
    ensures DirectiveCount(f) == DirectiveCount(f[j..])
    decreases j
  {
    if j > 0 {
      assert f[1..][..j - 1] == f[..j][1..];
      LiteralRun(f[1..], j - 1);
      assert f[1..][j - 1..] == f[j..];
    }
  }

  /** Tokenize succeeds exactly on the formats the scanner can read to the end, and keeps the directive count. */
  lemma {:induction false} TokenizeComplete(f: seq<byte>)
    ensures Tokenize(f).Some? <==> Complete(f)
    ensures Tokenize(f).Some? ==> VerbCount(Tokenize(f).value) == DirectiveCount(f)
    decreases |f|
  {
    if |f| == 0 {
    } else if f[0] == Percent {
      if |f| > 1 {
        TokenizeComplete(f[2..]);
        if Tokenize(f[2..]).Some? {
          var ts := Tokenize(f[2..]).value;
          assert ([Verb(f[1])] + ts)[1..] == ts;
        }
      }
    } else {
      var j := LiteralEnd(f);
      LiteralRun(f, j);
      TokenizeComplete(f[j..]);
      if Tokenize(f[j..]).Some? {
        var ts := Tokenize(f[j..]).value;
        assert ([Lit(f[..j])] + ts)[1..] == ts;
      }
    }
  }

  /** Tokens are a faithful parse: writing them back gives the format. */
  lemma {:induction false} TokenizeDetokenize(f: seq<byte>)
    requires Tokenize(f).Some?
    ensures Detokenize(Tokenize(f).value) == f
    decreases |f|
  {
    var ts := Tokenize(f).value;
    if |f| == 0 {
    } else if f[0] == Percent {
      TokenizeDetokenize(f[2..]);
      assert ts[1..] == Tokenize(f[2..]).value;
      assert f == [Percent, f[1]] + f[2..];
    } else {
      var j := LiteralEnd(f);
      TokenizeDetokenize(f[j..]);
      assert ts[1..] == Tokenize(f[j..]).value;
      assert f == f[..j] + f[j..];
    }
  }

  /** Tokenize yields the canonical shape: nonempty runs without '%', each followed by a directive. */
  lemma {:induction false} TokenizeCanonical(f: seq<byte>)
    requires Tokenize(f).Some?
    ensures Canonical(Tokenize(f).value)
    decreases |f|
  {
    var ts := Tokenize(f).value;
    if |f| == 0 {
    } else if f[0] == Percent {
      TokenizeCanonical(f[2..]);
      CanonicalCons(Verb(f[1]), Tokenize(f[2..]).value);
    } else {
      var j := LiteralEnd(f);
      TokenizeCanonical(f[j..]);
      var rest := Tokenize(f[j..]).value;
      if |rest| > 0 {
        assert j < |f|;
        assert f[j..][0] == Percent;
      }
      CanonicalCons(Lit(f[..j]), rest);
    }
  }

  lemma {:induction false} CanonicalCons(t: Token, ts: seq<Token>)
    requires Canonical(ts)
    requires t.Lit? ==> |t.run| > 0 && NoPercent(t.run) && (|ts| > 0 ==> ts[0].Verb?)
    ensures Canonical([t] + ts)
  {
    var us := [t] + ts;
    forall j | 1 <= j < |us|
      ensures us[j] == ts[j - 1]
    {
    }
  }

  /** Every canonical token sequence is the tokenization of its own text. */
  lemma {:induction false} DetokenizeTokenize(ts: seq<Token>)
    requires Canonical(ts)
    ensures Tokenize(Detokenize(ts)) == Some(ts)
    decreases |ts|
  {
    if |ts| == 0 {
    } else {
      assert Canonical(ts[1..]);
      DetokenizeTokenize(ts[1..]);
      var f := Detokenize(ts);
      var rest := Detokenize(ts[1..]);
      match ts[0]
      case Verb(v) =>
        assert f[2..] == rest;
        assert ts == [Verb(v)] + ts[1..];
      case Lit(run) =>
        assert f == run + rest;
        if |ts| > 1 {
          assert ts[1].Verb?;
          assert rest[0] == Percent;
        }
        LiteralEndOf(run, rest);
        assert f[..|run|] == run;
        assert f[|run|..] == rest;
        assert ts == [Lit(run)] + ts[1..];
    }
  }

  lemma {:induction false} LiteralEndOf(run: seq<byte>, rest: seq<byte>)
    requires NoPercent(run)
    requires |rest| == 0 || rest[0] == Percent
    ensures LiteralEnd(run + rest) == |run|
    decreases |run|
  {
    if |run| > 0 {
      assert (run + rest)[1..] == run[1..] + rest;
      LiteralEndOf(run[1..], rest);
    }
  }
}
