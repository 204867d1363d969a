/** Properties of the element-tree builder: which inputs convert, the order and
    one-to-one correspondence of converted children, the attribute filter, and
    what the document keeps of its selected root. */
module DomProperties {
  import opened Wrappers
  import opened Errors
  import opened Html
  import opened Dom

  /** A node the builder refuses wherever it occurs below the converted root:
      an element with an unknown tag, or a node that is neither element nor text. */
  ghost predicate Rejected(d: Node) {
    d.Other? || (d.Element? && ParseTagName(d.name).Err?)
  }

  /** Every tag parses back from its spelling, and only from it. */
  lemma TagNameRoundTrip(t: TagName, s: string)
    ensures ParseTagName(TagNameText(t)) == Ok(t)
    ensures ParseTagName(s) == Ok(t) <==> s == TagNameText(t)
  {
  }

  /** Every attribute name parses back from its spelling, and only from it. */
  lemma AttributeNameRoundTrip(a: AttributeName, s: string)
    ensures ParseAttributeName(AttributeNameText(a)) == Ok(a)
    ensures ParseAttributeName(s) == Ok(a) <==> s == AttributeNameText(a)
  {
  }

  /** One step of the children loop over a leading text node: it is skipped. */
  lemma ChildrenSkipText(cs: seq<Node>)
    requires |cs| > 0 && cs[0].Text?
    ensures NonText(cs) == NonText(cs[1..])
    ensures ConvertChildren(cs) == ConvertChildren(cs[1..])
  {
  }

  /** One step of the children loop over a leading non-text node: it is converted
      first, and the rest only when it succeeds. */
  lemma ChildrenConvertHead(cs: seq<Node>)
    requires |cs| > 0 && !cs[0].Text?
    ensures NonText(cs) == [cs[0]] + NonText(cs[1..])
    ensures ConvertNode(cs[0]).Err? ==> ConvertChildren(cs) == Err(ConvertNode(cs[0]).error)
    ensures ConvertNode(cs[0]).Ok? && ConvertChildren(cs[1..]).Err? ==>
      ConvertChildren(cs) == Err(ConvertChildren(cs[1..]).error)
    ensures ConvertNode(cs[0]).Ok? && ConvertChildren(cs[1..]).Ok? ==>
      ConvertChildren(cs) == Ok([ConvertNode(cs[0]).value] + ConvertChildren(cs[1..]).value)
  {
  }

  /** Every entry of `xs` succeeds under `f`. */
  ghost predicate AllOk<A, B, E>(f: A -> Result<B, E>, xs: seq<A>) {
    forall i :: 0 <= i < |xs| ==> f(xs[i]).Ok?
  }

  /** `f` sends the i-th entry of `xs` to `Ok` of the i-th entry of `ys`. */
  ghost predicate MapsTo<A, B, E>(f: A -> Result<B, E>, xs: seq<A>, ys: seq<B>) {
    |xs| == |ys| && forall i :: 0 <= i < |xs| ==> f(xs[i]) == Ok(ys[i])
  }

  /** The first entry of `xs` that fails under `f` fails with `e`. */
  ghost predicate FirstErr<A, B, E>(f: A -> Result<B, E>, xs: seq<A>, e: E) {
    exists i :: 0 <= i < |xs| && f(xs[i]) == Err(e) && forall j :: 0 <= j < i ==> f(xs[j]).Ok?
  }

  lemma AllOkCons<A, B, E>(f: A -> Result<B, E>, x: A, rest: seq<A>)
    ensures AllOk(f, [x] + rest) <==> f(x).Ok? && AllOk(f, rest)
  {
    var xs := [x] + rest;
    assert xs[0] == x;
    assert forall i :: 0 < i < |xs| ==> xs[i] == rest[i - 1];
    assert forall i :: 0 <= i < |rest| ==> rest[i] == xs[i + 1];
  }

  lemma MapsToCons<A, B, E>(f: A -> Result<B, E>, x: A, rest: seq<A>, y: B, ys: seq<B>)
    requires f(x) == Ok(y) && MapsTo(f, rest, ys)
    ensures MapsTo(f, [x] + rest, [y] + ys)
  {
  }

  lemma FirstErrCons<A, B, E>(f: A -> Result<B, E>, x: A, rest: seq<A>, e: E)
    requires f(x) == Err(e) || (f(x).Ok? && FirstErr(f, rest, e))
    ensures FirstErr(f, [x] + rest, e)
  {
    var xs := [x] + rest;
    assert xs[0] == x;
    if f(x) != Err(e) {
      var i :| 0 <= i < |rest| && f(rest[i]) == Err(e) && forall j :: 0 <= j < i ==> f(rest[j]).Ok?;
      assert xs[i + 1] == rest[i];
      assert forall j :: 0 < j < i + 1 ==> xs[j] == rest[j - 1];
    }
  }

  /** The children loop, stated over `NonText`: success iff every non-text child
      converts, the outputs in order, and the first failure's error otherwise. */
  lemma {:induction false} ChildrenLoop(cs: seq<Node>)
    ensures ConvertChildren(cs).Ok? <==> AllOk(ConvertNode, NonText(cs))
    ensures ConvertChildren(cs).Ok? ==> MapsTo(ConvertNode, NonText(cs), ConvertChildren(cs).value)
    ensures ConvertChildren(cs).Err? ==> FirstErr(ConvertNode, NonText(cs), ConvertChildren(cs).error)
    decreases cs
  {
    if |cs| > 0 {
      ChildrenLoop(cs[1..]);
      if cs[0].Text? {
        ChildrenSkipText(cs);
      } else {
        ChildrenConvertHead(cs);
        AllOkCons(ConvertNode, cs[0], NonText(cs[1..]));
        if ConvertChildren(cs).Ok? {
          MapsToCons(ConvertNode, cs[0], NonText(cs[1..]), ConvertNode(cs[0]).value, ConvertChildren(cs[1..]).value);
        } else {
          FirstErrCons(ConvertNode, cs[0], NonText(cs[1..]), ConvertChildren(cs).error);
        }
      }
    }
  }

  /** The children convert exactly when every non-text child converts. */
  lemma ChildrenOkIff(cs: seq<Node>)
    ensures ConvertChildren(cs).Ok? <==>
      forall i :: 0 <= i < |NonText(cs)| ==> ConvertNode(NonText(cs)[i]).Ok?
  {
    ChildrenLoop(cs);
  }

  /** On success there is one converted element per non-text child, in order: the
      i-th is the conversion of the i-th non-text child. */
  lemma ChildrenInOrder(cs: seq<Node>)
    ensures ConvertChildren(cs).Ok? ==>
      && |ConvertChildren(cs).value| == |NonText(cs)|
      && forall i :: 0 <= i < |NonText(cs)| ==> ConvertNode(NonText(cs)[i]) == Ok(ConvertChildren(cs).value[i])
  {
    ChildrenLoop(cs);
  }

  /** A failed conversion of the children reports the error of the first non-text
      child that fails; every non-text child before it converts. */
  lemma ChildrenFirstError(cs: seq<Node>)
    ensures ConvertChildren(cs).Err? ==>
      exists i :: 0 <= i < |NonText(cs)| && ConvertNode(NonText(cs)[i]) == Err(ConvertChildren(cs).error)
        && forall j :: 0 <= j < i ==> ConvertNode(NonText(cs)[j]).Ok?
  {
    ChildrenLoop(cs);
  }

  /** The children loop stops at the first child that fails: when every child
      before position `i` is text or converts, and the child at `i` is not text
      and fails, the loop fails with that child's error. */
  lemma {:induction false} ChildrenStopAt(cs: seq<Node>, i: nat)
    requires i < |cs| && !cs[i].Text? && ConvertNode(cs[i]).Err?
    requires forall j :: 0 <= j < i ==> cs[j].Text? || ConvertNode(cs[j]).Ok?
    ensures ConvertChildren(cs) == Err(ConvertNode(cs[i]).error)
    decreases i
  {
    if i == 0 {
      ChildrenConvertHead(cs);
    } else {
      assert forall j :: 0 <= j < i - 1 ==> cs[1..][j] == cs[j + 1];
      assert cs[1..][i - 1] == cs[i];
      ChildrenStopAt(cs[1..], i - 1);
      if cs[0].Text? {
        ChildrenSkipText(cs);
      } else {
        ChildrenConvertHead(cs);
      }
    }
  }

  /** A child that is neither an element nor text, such as a comment, fails its
      parent with an element error carrying that child, provided the parent's tag
      is known and every child before it is text or converts. */
  lemma OtherChildFails(name: string, attrs: seq<(string, string)>, cs: seq<Node>, i: nat)
    requires ParseTagName(name).Ok?
    requires i < |cs| && cs[i].Other?
    requires forall j :: 0 <= j < i ==> cs[j].Text? || ConvertNode(cs[j]).Ok?
    ensures ConvertNode(Element(name, attrs, cs)) == Err(VoxelElementParseError(cs[i]))
  {
    ChildrenStopAt(cs, i);
  }

  /** An element converts exactly when its tag is known and its children convert,
      and then to its tag, its kept attributes and its converted children. With a
      known tag, a failure among the children is the element's error, unchanged. */
  lemma ConvertElementStep(n: Node)
    requires n.Element?
    ensures ConvertNode(n).Ok? <==> ParseTagName(n.name).Ok? && ConvertChildren(n.children).Ok?
    ensures ParseTagName(n.name).Ok? && ConvertChildren(n.children).Err? ==>
      ConvertNode(n) == Err(ConvertChildren(n.children).error)
    ensures ConvertNode(n).Ok? ==>
      ConvertNode(n).value == VoxelElement(ParseTagName(n.name).value, KeepRecognised(n.attrs), ConvertChildren(n.children).value)
  {
  }

  /** Nothing in the subtree of a node that converts is rejected. */
  lemma {:induction false} ConvertedHasNothingRejected(n: Node, d: Node)
    requires ConvertNode(n).Ok? && Descendant(n, d)
    ensures !Rejected(d)
    decreases n
  {
    ConvertElementStep(n);
    if d != n {
      var i :| 0 <= i < |n.children| && Descendant(n.children[i], d);
      var c := n.children[i];
      if !c.Text? {
        var kept := NonText(n.children);
        NonTextKeeps(n.children, i);
        var k :| 0 <= k < |kept| && kept[k] == c;
        ChildrenOkIff(n.children);
        ConvertedHasNothingRejected(c, d);
      }
    }
  }

  /** An element whose conversion fails has a rejected node in its subtree. */
  lemma {:induction false} FailureHasRejected(n: Node)
    requires n.Element? && ConvertNode(n).Err?
    ensures exists d :: Descendant(n, d) && Rejected(d)
    decreases n
  {
    ConvertElementStep(n);
    if ParseTagName(n.name).Err? {
      assert Descendant(n, n) && Rejected(n);
    } else {
      var kept := NonText(n.children);
      ChildrenOkIff(n.children);
      var k :| 0 <= k < |kept| && ConvertNode(kept[k]).Err?;
      var c := kept[k];
      assert c in n.children;
      var i :| 0 <= i < |n.children| && n.children[i] == c;
      if c.Other? {
        assert Descendant(c, c);
        assert Descendant(n, c) && Rejected(c);
      } else {
        FailureHasRejected(c);
        var d :| Descendant(c, d) && Rejected(d);
        assert Descendant(n, d);
      }
    }
  }

  /** A node converts exactly when it is an element and nothing in its subtree is
      rejected: one unknown tag or one non-text, non-element node anywhere below
      fails the whole conversion. */
  lemma ConvertOkIffNothingRejected(n: Node)
    ensures ConvertNode(n).Ok? <==> n.Element? && forall d :: Descendant(n, d) ==> !Rejected(d)
  {
    if ConvertNode(n).Ok? {
      forall d | Descendant(n, d)
        ensures !Rejected(d)
      {
        ConvertedHasNothingRejected(n, d);
      }
    } else if n.Element? {
      FailureHasRejected(n);
    }
  }

  /** One rejected node anywhere in the subtree, the root included, fails the conversion. */
  lemma RejectedDescendantFails(n: Node, d: Node)
    requires Descendant(n, d) && Rejected(d)
    ensures ConvertNode(n).Err?
  {
    ConvertOkIffNothingRejected(n);
  }

  /** An element with a known tag, no recognised attribute and only text children
      converts to a fresh element carrying just its tag. */
  lemma ConvertBareElement(name: string, attrs: seq<(string, string)>, cs: seq<Node>)
    requires ParseTagName(name).Ok?
    requires forall i :: 0 <= i < |attrs| ==> ParseAttributeName(attrs[i].0).Err?
    requires forall i :: 0 <= i < |cs| ==> cs[i].Text?
    ensures ConvertNode(Element(name, attrs, cs)) == Ok(NewElement(ParseTagName(name).value))
  {
    NonTextOfText(cs);
    ChildrenOkIff(cs);
    KeepRecognisedKeys(attrs);
    assert Style !in KeepRecognised(attrs);
    assert KeepRecognised(attrs) == map[];
  }

  /** A name is kept exactly when some attribute parses to it. */
  lemma {:induction false} KeepRecognisedKeys(attrs: seq<(string, string)>)
    ensures forall k :: k in KeepRecognised(attrs) <==>
      exists i :: 0 <= i < |attrs| && ParseAttributeName(attrs[i].0) == Ok(k)
    decreases |attrs|
  {
    if |attrs| > 0 {
      var n := |attrs|;
      var prefix := attrs[..n - 1];
      KeepRecognisedKeys(prefix);
      assert forall i :: 0 <= i < n - 1 ==> prefix[i] == attrs[i];
    }
  }

  /** A kept name holds the value of the last attribute that parses to it: later
      insertions replace earlier ones. */
  lemma {:induction false} KeepRecognisedLastWins(attrs: seq<(string, string)>)
    ensures forall k :: k in KeepRecognised(attrs) ==>
      exists i ::
        && 0 <= i < |attrs| && ParseAttributeName(attrs[i].0) == Ok(k) && attrs[i].1 == KeepRecognised(attrs)[k]
        && forall j :: i < j < |attrs| ==> ParseAttributeName(attrs[j].0) != Ok(k)
    decreases |attrs|
  {
    if |attrs| > 0 {
      var n := |attrs|;
      var prefix := attrs[..n - 1];
      KeepRecognisedLastWins(prefix);
      var m := KeepRecognised(attrs);
      var (key, val) := attrs[n - 1];
      match ParseAttributeName(key)
      case Ok(name) =>
        assert m == KeepRecognised(prefix)[name := val];
        forall k | k in m
          ensures exists i ::
            && 0 <= i < n && ParseAttributeName(attrs[i].0) == Ok(k) && attrs[i].1 == m[k]
            && forall j :: i < j < n ==> ParseAttributeName(attrs[j].0) != Ok(k)
        {
          assert ParseAttributeName(attrs[n - 1].0) == Ok(k) && attrs[n - 1].1 == m[k];
        }
      case Err(_) =>
        assert m == KeepRecognised(prefix);
        assert forall i :: 0 <= i < n - 1 ==> prefix[i] == attrs[i];
    }
  }

  /** When attribute names are distinct, every recognised attribute is kept with
      its own value. */
  lemma KeepRecognisedDistinctNames(attrs: seq<(string, string)>)
    requires forall i, j :: 0 <= i < j < |attrs| ==> attrs[i].0 != attrs[j].0
    ensures forall i :: 0 <= i < |attrs| && ParseAttributeName(attrs[i].0).Ok? ==>
      var k := ParseAttributeName(attrs[i].0).value;
      k in KeepRecognised(attrs) && KeepRecognised(attrs)[k] == attrs[i].1
  {
    KeepRecognisedLastWins(attrs);
    KeepRecognisedKeys(attrs);
    var m := KeepRecognised(attrs);
    forall i | 0 <= i < |attrs| && ParseAttributeName(attrs[i].0).Ok?
      ensures ParseAttributeName(attrs[i].0).value in m
      ensures m[ParseAttributeName(attrs[i].0).value] == attrs[i].1
    {
      var k := ParseAttributeName(attrs[i].0).value;
      assert k in m;
      var i' :| 0 <= i' < |attrs| && ParseAttributeName(attrs[i'].0) == Ok(k) && attrs[i'].1 == m[k]
        && forall j :: i' < j < |attrs| ==> ParseAttributeName(attrs[j].0) != Ok(k);
      assert attrs[i'].0 == AttributeNameText(k) == attrs[i].0;
    }
  }

  /** Inserting an unrecognised attribute anywhere leaves the kept attributes unchanged. */
  lemma {:induction false} KeepRecognisedIgnoresUnknown(attrs: seq<(string, string)>, p: nat, key: string, val: string)
    requires p <= |attrs|
    requires ParseAttributeName(key).Err?
    ensures KeepRecognised(attrs[..p] + [(key, val)] + attrs[p..]) == KeepRecognised(attrs)
    decreases |attrs|
  {
    var longer := attrs[..p] + [(key, val)] + attrs[p..];
    if p == |attrs| {
      assert longer[..|longer| - 1] == attrs;
    } else {
      var n := |attrs|;
      KeepRecognisedIgnoresUnknown(attrs[..n - 1], p, key, val);
      assert attrs[..n - 1][..p] == attrs[..p];
      assert attrs[..n - 1][p..] == attrs[p..n - 1];
      assert attrs[p..] == attrs[p..n - 1] + [attrs[n - 1]];
      assert longer == (attrs[..p] + [(key, val)] + attrs[p..n - 1]) + [attrs[n - 1]];
      assert longer[..|longer| - 1] == attrs[..n - 1][..p] + [(key, val)] + attrs[..n - 1][p..];
      assert longer[|longer| - 1] == attrs[n - 1];
    }
  }

  /** An unrecognised attribute never causes an error and never changes the result. */
  lemma ConvertIgnoresUnknownAttribute(
    name: string, attrs: seq<(string, string)>, cs: seq<Node>, p: nat, key: string, val: string)
    requires p <= |attrs|
    requires ParseAttributeName(key).Err?
    ensures ConvertNode(Element(name, attrs[..p] + [(key, val)] + attrs[p..], cs)) == ConvertNode(Element(name, attrs, cs))
  {
    KeepRecognisedIgnoresUnknown(attrs, p, key, val);
  }

  /** The document is the converted root with its attributes dropped and its
      children moved into `elements`: it succeeds exactly when the root converts. */
  lemma DataIsStrippedRoot(root: Node)
    requires root.Element?
    ensures DataFromElement(root).Ok? <==> ConvertNode(root).Ok?
    ensures DataFromElement(root).Ok? ==>
      DataFromElement(root).value == VoxelData(NewElement(ConvertNode(root).value.tag), ConvertNode(root).value.children)
  {
  }

  /** `elements` holds one converted element per non-text direct child of the
      root, in order; deeper descendants stay nested inside them. */
  lemma DataElementsAreDirectChildren(root: Node)
    requires root.Element?
    ensures DataFromElement(root).Ok? ==>
      var elements := DataFromElement(root).value.elements;
      && |elements| == |NonText(root.children)|
      && forall i :: 0 <= i < |elements| ==> ConvertNode(NonText(root.children)[i]) == Ok(elements[i])
  {
    ChildrenInOrder(root.children);
  }

  /** A document that fails to build with a known root tag reports the error of
      the first non-text direct child of the root that fails to convert. */
  lemma DocumentReportsFirstChildError(root: Node)
    requires root.Element? && ParseTagName(root.name).Ok?
    ensures DataFromElement(root).Err? ==>
      FirstErr(ConvertNode, NonText(root.children), DataFromElement(root).error)
  {
    ChildrenLoop(root.children);
  }
}
