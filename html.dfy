/**
 * An already-parsed HTML document and the three BeautifulSoup queries the
 * scraper uses: `find_all` (every matching descendant in document order),
 * `find` (the first of them) and `get_text(strip=True)`.
 */
module Html {
  import opened Wrappers
  import opened Text

  /**
   * A node of the parsed tree: an element with its tag name, its class
   * tokens, its other attributes and its children, or a run of text.
   */
  datatype Node =
    | Tag(name: string, classes: seq<string>, attrs: map<string, string>, children: seq<Node>)
    | TextRun(value: string)

  /**
   * The filters passed to `find`/`find_all`: a tag name alone, a tag name with
   * a class token (`class_='entry'`, `{'class': 'article__date'}`), or a tag name
   * with an attribute value (`{'property': 'article:published_time'}`).
   */
  datatype Selector =
    | Named(tag: string)
    | WithClass(tag: string, cls: string)
    | WithAttr(tag: string, key: string, value: string)

  predicate Matches(n: Node, sel: Selector)
  {
    n.Tag? && n.name == sel.tag &&
    match sel
    case Named(_) => true
    case WithClass(_, c) => c in n.classes
    case WithAttr(_, k, v) => k in n.attrs && n.attrs[k] == v
  }

  /** A node followed by all its descendants, in document (pre-)order. */
  function Subtree(n: Node): (r: seq<Node>)
    decreases n, 1
    ensures |r| >= 1 && r[0] == n
  {
    match n
    case TextRun(_) => [n]
    case Tag(_, _, _, kids) => [n] + Forest(kids)
  }

  /** The subtrees of a list of siblings, one after the other. */
  function Forest(ns: seq<Node>): (r: seq<Node>)
    decreases ns, 0
    ensures forall i :: 0 <= i < |ns| ==> ns[i] in r
  {
    if ns == [] then [] else Subtree(ns[0]) + Forest(ns[1..])
  }

  /** Every node strictly below `n`, in document order (what `recursive=True` visits). */
  function Descendants(n: Node): seq<Node>
  {
    if n.Tag? then Forest(n.children) else []
  }

  /** The nodes of `ns` that the selector matches, in their order. */
  function Filter(ns: seq<Node>, sel: Selector): (r: seq<Node>)
    ensures |r| <= |ns|
  {
    if ns == [] then []
    else (if Matches(ns[0], sel) then [ns[0]] else []) + Filter(ns[1..], sel)
  }

  /**
   * Every node the filter keeps matches and comes from the input, every
   * matching node of the input is kept, and the result is empty exactly when
   * nothing in the input matches.
   */
  lemma {:induction false} FilterSpec(ns: seq<Node>, sel: Selector)
    ensures forall i :: 0 <= i < |Filter(ns, sel)| ==> Matches(Filter(ns, sel)[i], sel) && Filter(ns, sel)[i] in ns
    ensures forall m :: m in ns && Matches(m, sel) ==> m in Filter(ns, sel)
    ensures Filter(ns, sel) == [] <==> forall m :: m in ns ==> !Matches(m, sel)
  {
    if ns != [] {
      FilterSpec(ns[1..], sel);
      assert ns == [ns[0]] + ns[1..];
      var head := if Matches(ns[0], sel) then [ns[0]] else [];
      assert Filter(ns, sel) == head + Filter(ns[1..], sel);
      forall m | m in ns && Matches(m, sel) ensures m in Filter(ns, sel) {
        if m != ns[0] {
          assert m in ns[1..];
        }
      }
    }
  }

  /** `n.find_all(...)`. */
  function FindAll(n: Node, sel: Selector): (r: seq<Node>)
    ensures forall i :: 0 <= i < |r| ==> Matches(r[i], sel) && r[i] in Descendants(n)
    ensures forall m :: m in Descendants(n) && Matches(m, sel) ==> m in r
    ensures r == [] <==> forall m :: m in Descendants(n) ==> !Matches(m, sel)
  {
    FilterSpec(Descendants(n), sel);
    Filter(Descendants(n), sel)
  }

  /** The first node of `ns` that the selector matches. */
  function First(ns: seq<Node>, sel: Selector): (r: Option<nat>)
    ensures r.None? <==> forall i :: 0 <= i < |ns| ==> !Matches(ns[i], sel)
    ensures r.Some? ==> r.value < |ns| && Matches(ns[r.value], sel) &&
                        forall j :: 0 <= j < r.value ==> !Matches(ns[j], sel)
  {
    if ns == [] then None
    else if Matches(ns[0], sel) then Some(0)
    else match First(ns[1..], sel)
      case None => None
      case Some(k) => Some(k + 1)
  }

  /**
   * `n.find(...)`: the first matching descendant in document order, or `None`
   * when no descendant matches.
   */
  function Find(n: Node, sel: Selector): (r: Option<Node>)
    ensures r.None? <==> forall m :: m in Descendants(n) ==> !Matches(m, sel)
    ensures r.Some? ==> Matches(r.value, sel) && r.value in Descendants(n)
    ensures r.Some? ==> exists k :: 0 <= k < |Descendants(n)| && Descendants(n)[k] == r.value &&
                                    forall j :: 0 <= j < k ==> !Matches(Descendants(n)[j], sel)
  {
    var d := Descendants(n);
    match First(d, sel)
    case None => None
    case Some(k) => Some(d[k])
  }

  /** `find` gives what `find_all` lists first. */
  lemma {:induction false} FilterHeadIsFirst(ns: seq<Node>, sel: Selector)
    ensures First(ns, sel).None? <==> Filter(ns, sel) == []
    ensures First(ns, sel).Some? ==> Filter(ns, sel)[0] == ns[First(ns, sel).value]
  {
    if ns != [] && !Matches(ns[0], sel) {
      FilterHeadIsFirst(ns[1..], sel);
    }
  }

  lemma FindIsHeadOfFindAll(n: Node, sel: Selector)
    ensures Find(n, sel).None? <==> FindAll(n, sel) == []
    ensures Find(n, sel).Some? ==> Find(n, sel).value == FindAll(n, sel)[0]
  {
    FilterHeadIsFirst(Descendants(n), sel);
  }

  /** `find_all` keeps document order: over concatenated lists it concatenates. */
  lemma {:induction false} FilterAppend(a: seq<Node>, b: seq<Node>, sel: Selector)
    ensures Filter(a + b, sel) == Filter(a, sel) + Filter(b, sel)
  {
    if a == [] {
      assert a + b == b;
    } else {
      assert (a + b)[0] == a[0];
      assert (a + b)[1..] == a[1..] + b;
      FilterAppend(a[1..], b, sel);
      var head := if Matches(a[0], sel) then [a[0]] else [];
      assert Filter(a + b, sel) == head + Filter(a[1..] + b, sel);
      assert Filter(a, sel) == head + Filter(a[1..], sel);
    }
  }

  /** A descendant of a descendant of `n` is a descendant of `n`. */
  lemma {:induction false} DescendantTransitive(n: Node, d: Node, m: Node)
    requires d in Descendants(n) && m in Descendants(d)
    ensures m in Descendants(n)
    decreases n
  {
    ForestTransitive(n.children, d, m);
  }

  /** Everything below a descendant of `n` is below `n`. */
  lemma DescendantsClosed(n: Node, d: Node)
    requires d in Descendants(n)
    ensures forall m :: m in Descendants(d) ==> m in Descendants(n)
  {
    forall m | m in Descendants(d) ensures m in Descendants(n) {
      DescendantTransitive(n, d, m);
    }
  }

  lemma {:induction false} ForestTransitive(ns: seq<Node>, d: Node, m: Node)
    requires d in Forest(ns) && m in Descendants(d)
    ensures m in Forest(ns)
    decreases ns
  {
    if ns != [] {
      var head := ns[0];
      if d in Subtree(head) {
        if d == head {
          assert m in Forest(head.children);
        } else {
          assert d in Forest(head.children);
          ForestTransitive(head.children, d, m);
        }
        assert m in Subtree(head);
      } else {
        ForestTransitive(ns[1..], d, m);
      }
    }
  }

  /** The stripped, non-empty text runs of `ns` joined with "" (`get_text(strip=True)`). */
  function StrippedText(ns: seq<Node>): string
  {
    if ns == [] then []
    else (if ns[0].TextRun? then Strip(ns[0].value) else []) + StrippedText(ns[1..])
  }

  /** Joining stripped runs never puts white space at either end. */
  lemma {:induction false} StrippedTextTrimmed(ns: seq<Node>)
    ensures Trimmed(StrippedText(ns))
  {
    if ns != [] {
      StrippedTextTrimmed(ns[1..]);
      if ns[0].TextRun? {
        StripSpec(ns[0].value);
      }
    }
  }

  /** The text of consecutive node lists is the text of the first followed by that of the second. */
  lemma {:induction false} StrippedTextAppend(a: seq<Node>, b: seq<Node>)
    ensures StrippedText(a + b) == StrippedText(a) + StrippedText(b)
  {
    if a == [] {
      assert a + b == b;
    } else {
      assert (a + b)[0] == a[0];
      assert (a + b)[1..] == a[1..] + b;
      StrippedTextAppend(a[1..], b);
    }
  }

  /** Only text runs contribute, each one stripped. */
  lemma StrippedTextOne(n: Node)
    ensures StrippedText([n]) == (if n.TextRun? then Strip(n.value) else [])
  {
    assert [n][1..] == [];
  }

  /** `n.get_text(strip=True)`: all text below `n`, each run stripped. */
  function GetText(n: Node): (r: string)
    ensures Trimmed(r)
  {
    StrippedTextTrimmed(Descendants(n));
    StrippedText(Descendants(n))
  }

  /** An element whose only child is a text run has that run, stripped, as its text. */
  lemma GetTextOfRun(name: string, classes: seq<string>, attrs: map<string, string>, s: string)
    ensures GetText(Tag(name, classes, attrs, [TextRun(s)])) == Strip(s)
  {
    assert Forest([TextRun(s)]) == [TextRun(s)] + Forest([]);
    StrippedTextOne(TextRun(s));
  }
}
