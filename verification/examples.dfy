/** Concrete renderings: a SELECT with two child nodes, a raw string, and '%%'. */
module TrackedBufferExamples {
  import opened Bytes
  import opened Template
  import opened TrackedBuffer
  import opened TrackedBufferProperties

  /** A leaf node that writes its name and nothing else. */
  function Leaf(name: string): Node
    requires IsAscii(name)
  {
    Node(Ascii(name), [])
  }

  lemma {:induction false} AsciiNoPercent(s: string)
    requires IsAscii(s) && forall j | 0 <= j < |s| :: s[j] != '%'
    ensures NoPercent(Ascii(s))
  {
  }

  /** A parent with two children between three literal spans. */
  lemma {:induction false} TwoChildren(l0: seq<byte>, l1: seq<byte>, l2: seq<byte>, c0: Node, c1: Node)
    requires NoPercent(l0) && NoPercent(l1) && NoPercent(l2)
    requires Render(c0).Done? && Render(c1).Done?
    ensures Interp(l0 + [Percent, VerbNode] + l1 + [Percent, VerbNode] + l2, [ANode(c0), ANode(c1)])
         == Done(l0 + Render(c0).out + l1 + Render(c1).out + l2)
  {
    TwoChildrenShape(l0, l1, l2, c0, c1);
    ChildrenCompose([l0, l1, l2], [c0, c1], []);
  }

  /** The skeleton, the argument list and the interleaving for two children, spelt out. */
  lemma {:induction false} TwoChildrenShape(l0: seq<byte>, l1: seq<byte>, l2: seq<byte>, c0: Node, c1: Node)
    requires Render(c0).Done? && Render(c1).Done?
    ensures Skeleton([l0, l1, l2]) == l0 + [Percent, VerbNode] + l1 + [Percent, VerbNode] + l2
    ensures [] + Wrap([c0, c1]) == [ANode(c0), ANode(c1)]
    ensures AllRender([c0, c1])
    ensures Interleave([l0, l1, l2], Outputs([c0, c1])) == l0 + Render(c0).out + l1 + Render(c1).out + l2
  {
    TwoSkeleton(l0, l1, l2);
    TwoWrap(c0, c1);
    TwoInterleave(l0, l1, l2, c0, c1);
  }

  lemma {:induction false} TwoSkeleton(l0: seq<byte>, l1: seq<byte>, l2: seq<byte>)
    ensures Skeleton([l0, l1, l2]) == l0 + [Percent, VerbNode] + l1 + [Percent, VerbNode] + l2
  {
    var lits := [l0, l1, l2];
    assert lits[1..] == [l1, l2] && lits[1..][1..] == [l2];
    assert Skeleton([l2]) == l2;
    assert Skeleton(lits[1..]) == l1 + [Percent, VerbNode] + l2;
    assert Skeleton(lits) == l0 + [Percent, VerbNode] + (l1 + [Percent, VerbNode] + l2);
  }

  lemma {:induction false} TwoWrap(c0: Node, c1: Node)
    ensures [] + Wrap([c0, c1]) == [ANode(c0), ANode(c1)]
  {
    var kids := [c0, c1];
    assert [] + Wrap(kids) == Wrap(kids);
  }

  lemma {:induction false} TwoInterleave(l0: seq<byte>, l1: seq<byte>, l2: seq<byte>, c0: Node, c1: Node)
    requires Render(c0).Done? && Render(c1).Done?
    ensures AllRender([c0, c1])
    ensures Interleave([l0, l1, l2], Outputs([c0, c1])) == l0 + Render(c0).out + l1 + Render(c1).out + l2
  {
    TwoOutputs(c0, c1);
    TwoSpans(l0, l1, l2, Render(c0).out, Render(c1).out);
  }

  lemma {:induction false} TwoOutputs(c0: Node, c1: Node)
    requires Render(c0).Done? && Render(c1).Done?
    ensures AllRender([c0, c1])
    ensures Outputs([c0, c1]) == [Render(c0).out, Render(c1).out]
  {
    var kids := [c0, c1];
    assert AllRender(kids);
    assert kids[1..] == [c1] && kids[1..][1..] == [];
    assert Outputs(kids[1..][1..]) == [];
    assert Outputs(kids[1..]) == [Render(c1).out];
  }

  lemma {:induction false} TwoSpans(l0: seq<byte>, l1: seq<byte>, l2: seq<byte>, o0: seq<byte>, o1: seq<byte>)
    ensures Interleave([l0, l1, l2], [o0, o1]) == l0 + o0 + l1 + o1 + l2
  {
    var lits := [l0, l1, l2];
    var outs := [o0, o1];
    assert lits[1..] == [l1, l2] && lits[1..][1..] == [l2];
    var last: seq<seq<byte>> := outs[1..][1..];
    assert outs[1..] == [o1] && |last| == 0;
    assert Interleave([l2], last) == l2;
    assert Interleave(lits[1..], outs[1..]) == l1 + o1 + l2;
    assert Interleave(lits, outs) == l0 + o0 + (l1 + o1 + l2);
  }

  lemma {:induction false} SelectTemplate()
    ensures Ascii("SELECT %v FROM %v") == Ascii("SELECT ") + [Percent, VerbNode] + Ascii(" FROM ") + [Percent, VerbNode] + []
  {
    assert "SELECT %v FROM %v" == "SELECT " + "%v" + " FROM " + "%v";
    assert Ascii("%v") == [Percent, VerbNode];
  }

  lemma {:induction false} SelectOutput()
    ensures Ascii("SELECT id FROM users") == Ascii("SELECT ") + Ascii("id") + Ascii(" FROM ") + Ascii("users") + []
  {
    assert "SELECT id FROM users" == "SELECT " + "id" + " FROM " + "users";
  }

  lemma {:induction false} LeafRenders(name: string)
    requires IsAscii(name) && forall j | 0 <= j < |name| :: name[j] != '%'
    ensures Render(Leaf(name)) == Done(Ascii(name))
  {
    AsciiNoPercent(name);
    LiteralCopy(Ascii(name), [], 0);
  }

  /** "SELECT %v FROM %v" with the nodes `id` and `users` writes "SELECT id FROM users". */
  lemma {:induction false} SelectExample()
    ensures Interp(Ascii("SELECT %v FROM %v"), [ANode(Leaf("id")), ANode(Leaf("users"))])
         == Done(Ascii("SELECT id FROM users"))
  {
    AsciiNoPercent("SELECT ");
    AsciiNoPercent(" FROM ");
    LeafRenders("id");
    LeafRenders("users");
    TwoChildren(Ascii("SELECT "), Ascii(" FROM "), [], Leaf("id"), Leaf("users"));
    SelectTemplate();
    SelectOutput();
  }

  /** "%s" writes "O'Brien" unescaped: quoting is the calling node's business. */
  lemma {:induction false} RawStringExample()
    ensures Interp(Ascii("%s"), [AStr(Ascii("O'Brien"))]) == Done(Ascii("O'Brien"))
  {
    assert Ascii("%s") == [Percent, VerbString];
    StringVerb(AStr(Ascii("O'Brien")), []);
  }

  /** "100%%" writes "100" and then panics: there is no escape for '%'. */
  lemma {:induction false} PercentExample()
    ensures Interp(Ascii("100%%"), []) == Panic(UnsupportedDirective(Percent), Ascii("100"))
  {
    AsciiNoPercent("100");
    assert Ascii("100%%") == Ascii("100") + [Percent, Percent] + [];
    PercentPercentPanics(Ascii("100"), [], []);
  }
}
