/**
 The tracked buffer that rebuilds a query from its syntax tree: an
 append-only byte buffer plus Myprintf, a directive interpreter with the
 verbs %c, %s, %v and %a. The buffer is a value here; every operation
 returns what the buffer holds afterwards, and a Go panic becomes a Panic
 outcome that keeps the bytes written before it.
 */
module TrackedBuffer {
  import opened Bytes
  import opened Template
  import Utf8

  const VerbChar: byte := 0x63     // 'c'
  const VerbString: byte := 0x73   // 's'
  const VerbNode: byte := 0x76     // 'v'
  const VerbTracked: byte := 0x61  // 'a'

  predicate IsKnownVerb(d: byte) {
    d == VerbChar || d == VerbString || d == VerbNode || d == VerbTracked
  }

  /** The dynamic type and value of one `interface{}` argument. */
  datatype Arg =
    | AByte(b: byte)          // byte
    | ARune(r: rune)          // rune
    | ABytes(bs: seq<byte>)   // []byte
    | AStr(s: seq<byte>)      // string
    | ANode(n: Node)          // any SQLNode
    | AOther                  // any other type, nil included

  /**
   An SQLNode, seen through its Format method: rendering the node is one
   Myprintf call on the same buffer with this template and these arguments.
   */
  datatype Node = Node(template: seq<byte>, args: seq<Arg>)

  /** Why Myprintf panicked. */
  datatype Fault =
    | DanglingPercent                   // a '%' ends the format, so format[i] is out of range
    | UnsupportedDirective(verb: byte)  // a verb outside c, s, v, a
    | MissingArgument(fieldnum: nat)    // values[fieldnum] is out of range
    | WrongType(verb: byte, fieldnum: nat)  // the argument's type does not suit the verb

  /** What a call appends: all of its output, or the fault and the output written before it. */
  datatype Outcome = Done(out: seq<byte>) | Panic(fault: Fault, partial: seq<byte>) {
    function Written(): seq<byte> {
      if Done? then out else partial
    }
  }

  /** The outcome `o` with `p` written before it. */
  function Prepend(p: seq<byte>, o: Outcome): (r: Outcome)
    ensures r.Done? == o.Done? && r.Written() == p + o.Written()
    ensures r.Panic? ==> r.fault == o.fault
  {
    match o
    case Done(s) => Done(p + s)
    case Panic(f, s) => Panic(f, p + s)
  }

  /** Running `first` and then, unless it panicked, `second`. */
  function Then(first: Outcome, second: Outcome): Outcome {
    if first.Panic? then first else Prepend(first.out, second)
  }

  /**
   The scanning loop of Myprintf over node `n`'s template from byte `i`,
   with `fieldnum` arguments already consumed. A scan succeeds only when no
   '%' ends the rest of the template and an argument exists for each of its
   directives.
   */
  function Run(n: Node, i: nat, fieldnum: nat): (r: Outcome)
    requires i <= |n.template|
    ensures r.Done? ==> Complete(n.template[i..])
    ensures r.Done? && DirectiveCount(n.template[i..]) > 0 ==> fieldnum + DirectiveCount(n.template[i..]) <= |n.args|
    decreases n, |n.template| - i
  {
    var f := n.template;
    if i == |f| then Done([])
    else if f[i] != Percent then
      assert f[i..][1..] == f[i + 1..];
      Prepend([f[i]], Run(n, i + 1, fieldnum))
    else if i + 1 == |f| then Panic(DanglingPercent, [])
    else
      assert f[i..][2..] == f[i + 2..];
      Then(Directive(f[i + 1], n.args, fieldnum), Run(n, i + 2, fieldnum + 1))
  }

  /**
   One directive: the switch on the verb, then `values[fieldnum]`, then the
   type switch or type assertion on it.
   */
  function Directive(verb: byte, values: seq<Arg>, fieldnum: nat): (r: Outcome)
    ensures r.Done? ==> IsKnownVerb(verb) && fieldnum < |values|
    decreases values
  {
    if !IsKnownVerb(verb) then Panic(UnsupportedDirective(verb), [])
    else if fieldnum >= |values| then Panic(MissingArgument(fieldnum), [])
    else Apply(verb, values[fieldnum], fieldnum)
  }

  /**
   The type switch (or type assertion) of a known verb on its argument `v`,
   which is `values[fieldnum]`. Which argument types each verb accepts, what
   an accepted byte, rune, []byte or string writes, and that a rejected type
   panics having written nothing.
   */
  function Apply(verb: byte, v: Arg, fieldnum: nat): (r: Outcome)
    requires IsKnownVerb(verb)
    ensures verb == VerbChar ==> (r.Done? <==> v.AByte? || v.ARune?)
    ensures verb == VerbString ==> (r.Done? <==> v.ABytes? || v.AStr?)
    ensures verb == VerbTracked ==> (r.Done? <==> v.AStr?)
    ensures verb == VerbNode && !v.ANode? ==> r.Panic?
    ensures (verb != VerbNode || !v.ANode?) && r.Panic? ==> r == Panic(WrongType(verb, fieldnum), [])
    ensures r.Done? && v.AByte? ==> r.out == [v.b]
    ensures r.Done? && v.ARune? ==> r.out == Utf8.Encode(v.r)
    ensures r.Done? && v.ABytes? ==> r.out == v.bs
    ensures r.Done? && v.AStr? ==> r.out == v.s
    ensures v.ANode? && r.Done? ==> Complete(v.n.template)
    decreases v
  {
    if verb == VerbChar then
      match v
      case AByte(b) => Done([b])
      case ARune(r) => Done(Utf8.Encode(r))
      case _ => Panic(WrongType(verb, fieldnum), [])
    else if verb == VerbString then
      match v
      case ABytes(bs) => Done(bs)
      case AStr(s) => Done(s)
      case _ => Panic(WrongType(verb, fieldnum), [])
    else if verb == VerbNode then
      match v
      case ANode(m) =>
        assert m.template[0..] == m.template;
        Run(m, 0, 0)
      case _ => Panic(WrongType(verb, fieldnum), [])
    else
      match v
      case AStr(s) => Done(s)
      case _ => Panic(WrongType(verb, fieldnum), [])
  }

  /**
   The scan of a whole format string with `fieldnum` arguments already
   consumed; `Interp` is this scan from the first argument.
   */
  function Scan(format: seq<byte>, values: seq<Arg>, fieldnum: nat): Outcome {
    Run(Node(format, values), 0, fieldnum)
  }

  /**
   What `Myprintf(format, values...)` appends. A call that does not panic
   had no '%' at the end of its format and an argument for every directive.
   */
  function Interp(format: seq<byte>, values: seq<Arg>): (r: Outcome)
    ensures r.Done? ==> Complete(format)
    ensures r.Done? ==> DirectiveCount(format) <= |values|
  {
    assert format[0..] == format;
    Scan(format, values, 0)
  }

  /**
   What `node.Format(buf)` appends: the node's one Myprintf call with its
   template and arguments, on the same buffer. A node whose rendering does
   not panic has a complete template and enough arguments.
   */
  function Render(n: Node): (r: Outcome)
    ensures r == Interp(n.template, n.args)
    ensures r.Done? ==> Complete(n.template)
    ensures r.Done? ==> DirectiveCount(n.template) <= |n.args|
  {
    Run(n, 0, 0)
  }

  /** `NewTrackedBuffer()`: a buffer starts empty. */
  function NewTrackedBuffer(): (buf: seq<byte>)
    ensures |buf| == 0
  {
    []
  }

  lemma {:induction false} RunLiteral(n: Node, i: nat, fieldnum: nat)
    requires i < |n.template| && n.template[i] != Percent
    ensures Run(n, i, fieldnum) == Prepend([n.template[i]], Run(n, i + 1, fieldnum))
  {
  }

  lemma {:induction false} RunDirective(n: Node, i: nat, fieldnum: nat)
    requires i + 1 < |n.template| && n.template[i] == Percent
    ensures Run(n, i, fieldnum) == Then(Directive(n.template[i + 1], n.args, fieldnum), Run(n, i + 2, fieldnum + 1))
  {
  }

  /** A run of bytes without '%' is copied to the buffer unchanged. */
  lemma {:induction false} RunLiterals(n: Node, i: nat, j: nat, fieldnum: nat)
    requires i <= j <= |n.template| && NoPercent(n.template[i..j])
    ensures Run(n, i, fieldnum) == Prepend(n.template[i..j], Run(n, j, fieldnum))
    decreases j - i
  {
    if i == j {
      assert n.template[i..j] == [];
    } else {
      assert n.template[i] == n.template[i..j][0];
      assert n.template[i + 1..j] == n.template[i..j][1..];
      RunLiterals(n, i + 1, j, fieldnum);
      RunLiteral(n, i, fieldnum);
      PrependPrepend([n.template[i]], n.template[i + 1..j], Run(n, j, fieldnum));
      assert [n.template[i]] + n.template[i + 1..j] == n.template[i..j];
    }
  }

  /** The inner loop of Myprintf: from `i`, the end of the literal run, at the next '%' or the end. */
  method ScanLiteral(format: seq<byte>, i: nat) returns (j: nat)
    requires i <= |format|
    ensures i <= j <= |format|
    ensures NoPercent(format[i..j])
    ensures j < |format| ==> format[j] == Percent
  {
    j := i;
    while j < |format| && format[j] != Percent
      invariant i <= j <= |format|
      invariant NoPercent(format[i..j])
      decreases |format| - j
    {
      assert format[i..j + 1] == format[i..j] + [format[j]];
      j := j + 1;
    }
  }

  /** One literal run of the scan, in the form the loop of Myprintf needs. */
  lemma {:induction false} LiteralsStep(n: Node, i: nat, j: nat, fieldnum: nat, b: seq<byte>)
    requires i <= j <= |n.template| && NoPercent(n.template[i..j])
    ensures Prepend(b, Run(n, i, fieldnum)) == Prepend(b + n.template[i..j], Run(n, j, fieldnum))
  {
    RunLiterals(n, i, j, fieldnum);
    PrependPrepend(b, n.template[i..j], Run(n, j, fieldnum));
  }

  /** The end of the template: the buffer as it stands is the result. */
  lemma {:induction false} EndStep(n: Node, i: nat, fieldnum: nat, b: seq<byte>)
    requires i == |n.template|
    ensures Prepend(b, Run(n, i, fieldnum)) == Done(b)
  {
    assert b + [] == b;
  }

  /** One directive step of the scan, in the form the loop of Myprintf needs. */
  lemma {:induction false} DirectiveStep(n: Node, i: nat, fieldnum: nat, b: seq<byte>, o: Outcome)
    requires i + 1 < |n.template| && n.template[i] == Percent
    requires o == Prepend(b, Directive(n.template[i + 1], n.args, fieldnum))
    ensures o.Panic? ==> Prepend(b, Run(n, i, fieldnum)) == o
    ensures o.Done? ==> Prepend(b, Run(n, i, fieldnum)) == Prepend(o.out, Run(n, i + 2, fieldnum + 1))
  {
    var d := Directive(n.template[i + 1], n.args, fieldnum);
    RunDirective(n, i, fieldnum);
    if d.Done? {
      PrependPrepend(b, d.out, Run(n, i + 2, fieldnum + 1));
    }
  }

  lemma {:induction false} PrependPrepend(p: seq<byte>, q: seq<byte>, o: Outcome)
    ensures Prepend(p, Prepend(q, o)) == Prepend(p + q, o)
  {
  }

  /**
   Myprintf as Go writes it: an outer loop over directives and an inner loop
   over each literal run, writing into `buf`. The result is the buffer after
   the call, or the fault with the buffer as the panic left it.
   */
  method Myprintf(buf: seq<byte>, format: seq<byte>, values: seq<Arg>) returns (res: Outcome)
    ensures res == Prepend(buf, Interp(format, values))
    ensures buf <= res.Written()
    decreases Node(format, values)
  {
    ghost var n := Node(format, values);
    ghost var goal := Prepend(buf, Run(n, 0, 0));
    var b := buf;
    var end := |format|;
    var fieldnum := 0;
    var i := 0;
    while i < end
      invariant i <= end
      invariant Prepend(b, Run(n, i, fieldnum)) == goal
      decreases end - i
    {
      var lasti := i;
      i := ScanLiteral(format, i);
      LiteralsStep(n, lasti, i, fieldnum, b);
      b := b + format[lasti..i];
      if i >= end {
        break;
      }
      i := i + 1;  // '%'
      if i >= end {
        assert Run(n, i - 1, fieldnum) == Panic(DanglingPercent, []);
        return Panic(DanglingPercent, b);
      }
      var o := WriteDirective(b, format[i], values, fieldnum);
      DirectiveStep(n, i - 1, fieldnum, b, o);
      if o.Panic? {
        return o;
      }
      b := o.out;
      fieldnum := fieldnum + 1;
      i := i + 1;
    }
    EndStep(n, i, fieldnum, b);
    return Done(b);
  }

  /** The directive switch of Myprintf, writing into `buf`; "%v" renders the node on the same buffer. */
  method WriteDirective(buf: seq<byte>, verb: byte, values: seq<Arg>, fieldnum: nat) returns (res: Outcome)
    ensures res == Prepend(buf, Directive(verb, values, fieldnum))
    decreases values
  {
    if !IsKnownVerb(verb) {
      return Panic(UnsupportedDirective(verb), buf);
    }
    if fieldnum >= |values| {
      return Panic(MissingArgument(fieldnum), buf);
    }
    res := WriteArgument(buf, verb, values[fieldnum], fieldnum);
  }

  /** The type switch of WriteDirective on the argument `v`. */
  method WriteArgument(buf: seq<byte>, verb: byte, v: Arg, fieldnum: nat) returns (res: Outcome)
    requires IsKnownVerb(verb)
    ensures res == Prepend(buf, Apply(verb, v, fieldnum))
    decreases v
  {
    if verb == VerbChar {
      match v
      case AByte(x) => return Done(buf + [x]);
      case ARune(r) => return Done(buf + Utf8.Encode(r));
      case _ => return Panic(WrongType(verb, fieldnum), buf);
    } else if verb == VerbString {
      match v
      case ABytes(bs) => return Done(buf + bs);
      case AStr(s) => return Done(buf + s);
      case _ => return Panic(WrongType(verb, fieldnum), buf);
    } else if verb == VerbNode {
      match v
      case ANode(m) => res := Myprintf(buf, m.template, m.args);
      case _ => return Panic(WrongType(verb, fieldnum), buf);
    } else {
      match v
      case AStr(s) => return Done(buf + s);
      case _ => return Panic(WrongType(verb, fieldnum), buf);
    }
  }

  /** `WriteNode(node)`: Myprintf("%v", node), which appends the node's rendering. */
  method WriteNode(buf: seq<byte>, node: Node) returns (res: Outcome)
    ensures res == Prepend(buf, Render(node))
  {
    res := Myprintf(buf, [Percent, VerbNode], [ANode(node)]);
    NodeDirective(node);
  }

  /** "%v" with a node argument appends exactly that node's own rendering. */
  lemma {:induction false} NodeDirective(node: Node)
    ensures Interp([Percent, VerbNode], [ANode(node)]) == Render(node)
  {
    var n := Node([Percent, VerbNode], [ANode(node)]);
    assert Run(n, 2, 1) == Done([]);
    RunDirective(n, 0, 0);
    assert Directive(VerbNode, n.args, 0) == Render(node);
    var o := Render(node);
    assert o.Done? ==> o.out + [] == o.out;
  }
}
