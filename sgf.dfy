/**
 * The SGF record parser (app.js:185-293): one cursor moves left to right over
 * the text; `skipWs`, `parseValue`, `parseNode` and `parseGameTree` share it.
 *
 * Each step is specified twice: a function from a cursor position to the
 * value read and the position reached (WsEnd, ValueAt, NodeAt, SequenceAt,
 * TreeAt, ChildrenAt, TreesAt, ParsedSgf), and a method of the class Parser
 * that runs the source's loops on a cursor field and is proved to compute
 * that function. A serializer (EmitTree) following the game-tree grammar and
 * the Text escaping of SGF FF[4] is the partner of the parser: parsing what it
 * writes gives back the tree it was given.
 */
module Sgf {
  import opened Wrappers

  /** A node's properties: each identifier with its values in encounter order. */
  type PropertyBag = map<string, seq<string>>

  /** A game tree: a run of nodes followed by the variations that branch after it. */
  datatype GameTree = GameTree(sequence: seq<PropertyBag>, children: seq<GameTree>)

  /** The three errors parseSgf throws, with the cursor position they report. */
  datatype ParseError = ExpectedOpen(at: nat) | ExpectedClose(at: nat) | NoGameTree

  /**
   * JavaScript's /\s/: tab, line feed, vertical tab, form feed, carriage
   * return and space, plus the wider white space of ECMAScript below.
   */
  predicate IsWs(c: char) {
    if c <= ' ' then c == ' ' || '\t' <= c <= '\r' else '\U{00A0}' <= c && IsWideWs(c)
  }

  /**
   * No-break space, ogham space mark, U+2000 to U+200A, line and paragraph
   * separators, narrow no-break space, medium mathematical space, ideographic
   * space and the byte order mark.
   */
  predicate IsWideWs(c: char) {
    c == '\U{00A0}' || c == '\U{1680}' || ('\U{2000}' <= c <= '\U{200A}') ||
    c == '\U{2028}' || c == '\U{2029}' || c == '\U{202F}' || c == '\U{205F}' ||
    c == '\U{3000}' || c == '\U{FEFF}'
  }

  /** /[A-Za-z]/ */
  predicate IsLetter(c: char) {
    ('A' <= c <= 'Z') || ('a' <= c <= 'z')
  }

  /** `text[i] === c`: false past the end, where JavaScript reads `undefined`. */
  predicate IsAt(text: string, i: nat, c: char) {
    i < |text| && text[i] == c
  }

  function Lookup(props: PropertyBag, ident: string): seq<string> {
    if ident in props then props[ident] else []
  }

  // ---------------------------------------------------------------------
  // The parser as functions of the cursor position
  // ---------------------------------------------------------------------

  /** skipWs: the end of the white-space run that starts at i. */
  function WsEnd(text: string, i: nat): (j: nat)
    ensures i <= j && (j == i || j <= |text|)
    decreases |text| - i
  {
    if i < |text| && IsWs(text[i]) then WsEnd(text, i + 1) else i
  }

  /** The end of the run of letters that starts at i: an identifier. */
  function IdentEnd(text: string, i: nat): (j: nat)
    ensures i <= j && (j == i || j <= |text|)
    ensures j < |text| ==> !IsLetter(text[j])
    decreases |text| - i
  {
    if i < |text| && IsLetter(text[i]) then IdentEnd(text, i + 1) else i
  }

  /**
   * The loop of parseValue after its '[': a backslash takes the next code
   * unit literally (and is dropped at the end of the text), an unescaped ']'
   * ends the value, anything else is kept.
   */
  function ValueBody(text: string, i: nat, out: string): (r: (string, nat))
    requires i <= |text|
    ensures i <= r.1 <= |text|
    ensures r.1 == |text| || (i < r.1 && text[r.1 - 1] == ']')
    decreases |text| - i
  {
    if i >= |text| then (out, i)
    else if text[i] == '\\' then
      if i + 1 < |text| then ValueBody(text, i + 2, out + [text[i + 1]]) else (out, i + 1)
    else if text[i] == ']' then (out, i + 1)
    else ValueBody(text, i + 1, out + [text[i]])
  }

  /** parseValue: the empty value, cursor unmoved, unless the cursor is on '['. */
  function ValueAt(text: string, i: nat): (r: (string, nat))
    ensures IsAt(text, i, '[') ==> i < r.1 <= |text|
    ensures !IsAt(text, i, '[') ==> r == ("", i)
  {
    if IsAt(text, i, '[') then ValueBody(text, i + 1, "") else ("", i)
  }

  /** The value loop of parseNode: values while the cursor is on '[', white space skipped after each. */
  function ValuesAt(text: string, i: nat, acc: seq<string>): (r: (seq<string>, nat))
    ensures i <= r.1 && (r.1 == i || r.1 <= |text|)
    ensures |acc| <= |r.0|
    decreases |text| - i
  {
    if IsAt(text, i, '[') then
      var (v, j) := ValueAt(text, i);
      ValuesAt(text, WsEnd(text, j), acc + [v])
    else (acc, i)
  }

  /** Past the end of the text, or on a code unit that is not white space: where skipWs does not move. */
  predicate Solid(text: string, i: nat) {
    i >= |text| || !IsWs(text[i])
  }

  /** The code units on which parseNode stops. */
  predicate EndsNode(text: string, i: nat) {
    IsAt(text, i, ';') || IsAt(text, i, '(') || IsAt(text, i, ')')
  }

  /**
   * One pass of parseNode's loop, from the first code unit after white space:
   * an identifier and its values, merged into the bag by appending to the
   * values already there, or, when no identifier starts here, one code unit
   * skipped.
   */
  function PropertyAt(text: string, j: nat, props: PropertyBag): (r: (PropertyBag, nat))
    ensures j < r.1
  {
    var k := IdentEnd(text, j);
    if k == j then (props, j + 1)
    else
      var ident := text[j..k];
      var (values, n) := ValuesAt(text, WsEnd(text, k), []);
      (props[ident := Lookup(props, ident) + values], n)
  }

  /**
   * parseNode: properties until the cursor, past white space, is on ';', '('
   * or ')' or past the end.
   */
  function NodeAt(text: string, i: nat, props: PropertyBag): (r: (PropertyBag, nat))
    ensures i <= r.1
    decreases |text| - i
  {
    if i >= |text| then (props, i)
    else
      var j := WsEnd(text, i);
      if EndsNode(text, j) then (props, j)
      else
        var (next, n) := PropertyAt(text, j, props);
        NodeAt(text, n, next)
  }

  /** The node loop of parseGameTree: a node after every ';'. */
  function SequenceAt(text: string, i: nat, acc: seq<PropertyBag>): (r: (seq<PropertyBag>, nat))
    ensures i <= r.1
    decreases |text| - i
  {
    if IsAt(text, i, ';') then
      var (props, j) := NodeAt(text, i + 1, map[]);
      SequenceAt(text, WsEnd(text, j), acc + [props])
    else (acc, i)
  }

  /**
   * parseGameTree: '(' , white space, the node sequence, the child trees in
   * encounter order, ')'. A tree that is read ends just after a ')'; a tree
   * that starts on '(' can only fail for want of a ')'.
   */
  function TreeAt(text: string, i: nat): (r: Result<(GameTree, nat), ParseError>)
    ensures r.Ok? ==> i < r.value.1 <= |text| && text[r.value.1 - 1] == ')'
    ensures r.Err? && IsAt(text, i, '(') ==> r.error.ExpectedClose?
    decreases |text| - i, 0
  {
    if !IsAt(text, i, '(') then Err(ExpectedOpen(i))
    else
      var (sq, j) := SequenceAt(text, WsEnd(text, i + 1), []);
      TreeRest(text, sq, j)
  }

  /** The rest of parseGameTree once its node sequence sq has been read up to j: the child trees and ')'. */
  function TreeRest(text: string, sq: seq<PropertyBag>, j: nat): (r: Result<(GameTree, nat), ParseError>)
    ensures r.Ok? ==> j < r.value.1 <= |text| && text[r.value.1 - 1] == ')'
    ensures r.Err? ==> r.error.ExpectedClose?
    decreases |text| - j, 2
  {
    match ChildrenAt(text, j, [])
    case Err(e) => Err(e)
    case Ok((cs, k)) =>
      if IsAt(text, k, ')') then Ok((GameTree(sq, cs), k + 1)) else Err(ExpectedClose(k))
  }

  /** The child-tree loop of parseGameTree: a tree while the cursor is on '('. */
  function ChildrenAt(text: string, i: nat, acc: seq<GameTree>): (r: Result<(seq<GameTree>, nat), ParseError>)
    ensures r.Ok? ==> i <= r.value.1 && (r.value.1 == i || r.value.1 <= |text|)
    ensures r.Err? ==> r.error.ExpectedClose?
    decreases |text| - i, 1
  {
    if !IsAt(text, i, '(') then Ok((acc, i))
    else
      match TreeAt(text, i)
      case Err(e) => Err(e)
      case Ok((t, j)) => ChildrenAt(text, WsEnd(text, j), acc + [t])
  }

  /** The top-level loop of parseSgf: every '(' starts a tree, any other code unit is skipped. */
  function TreesAt(text: string, i: nat, acc: seq<GameTree>): (r: Result<seq<GameTree>, ParseError>)
    ensures r.Ok? ==> |acc| <= |r.value| && r.value[..|acc|] == acc
    decreases |text| - i
  {
    if i >= |text| then Ok(acc)
    else
      var j := WsEnd(text, i);
      if j >= |text| then Ok(acc)
      else if text[j] != '(' then TreesAt(text, j + 1, acc)
      else
        match TreeAt(text, j)
        case Err(e) => Err(e)
        case Ok((t, k)) => TreesAt(text, WsEnd(text, k), acc + [t])
  }

  /** parseSgf: the first top-level tree, once every top-level tree has been read. */
  function ParsedSgf(text: string): (r: Result<GameTree, ParseError>)
    ensures r.Err? ==> r.error.NoGameTree? || r.error.ExpectedClose?
  {
    match TreesAt(text, WsEnd(text, 0), [])
    case Err(e) => TreesFailClosing(text, WsEnd(text, 0), []); Err(e)
    case Ok(trees) => if |trees| == 0 then Err(NoGameTree) else Ok(trees[0])
  }

  /** Top-level trees always start on '(', so they only fail for want of a ')'. */
  lemma {:induction false} TreesFailClosing(text: string, i: nat, acc: seq<GameTree>)
    ensures TreesAt(text, i, acc).Err? ==> TreesAt(text, i, acc).error.ExpectedClose?
    decreases |text| - i
  {
    if i < |text| {
      var j := WsEnd(text, i);
      if j < |text| {
        if text[j] != '(' {
          TreesFailClosing(text, j + 1, acc);
        } else if TreeAt(text, j).Ok? {
          var (t, k) := TreeAt(text, j).value;
          TreesFailClosing(text, WsEnd(text, k), acc + [t]);
        }
      }
    }
  }

  // ---------------------------------------------------------------------
  // The parser as the source runs it: a cursor field moved by methods
  // ---------------------------------------------------------------------

  class Parser {
    const text: string
    var pos: nat

    constructor (text: string)
      ensures this.text == text && pos == 0
    {
      this.text := text;
      pos := 0;
    }

    method SkipWs()
      modifies this
      ensures pos == WsEnd(text, old(pos))
    {
      while pos < |text| && IsWs(text[pos])
        invariant WsEnd(text, pos) == WsEnd(text, old(pos))
        decreases |text| - pos
      {
        pos := pos + 1;
      }
    }

    method ParseValue() returns (value: string)
      modifies this
      ensures (value, pos) == ValueAt(text, old(pos))
    {
      if !IsAt(text, pos, '[') {
        return "";
      }
      pos := pos + 1;
      ghost var start := pos;
      value := "";
      while pos < |text|
        invariant start <= pos <= |text|
        invariant ValueBody(text, pos, value) == ValueBody(text, start, "")
        decreases |text| - pos
      {
        var ch := text[pos];
        if ch == '\\' {
          pos := pos + 1;
          if pos < |text| {
            value := value + [text[pos]];
            pos := pos + 1;
          }
        } else if ch == ']' {
          pos := pos + 1;
          break;
        } else {
          value := value + [ch];
          pos := pos + 1;
        }
      }
    }

    /** The identifier loop of parseNode: the letters from the cursor on. */
    method ReadIdent() returns (ident: string)
      modifies this
      ensures pos == IdentEnd(text, old(pos))
      ensures old(pos) <= pos <= |text| || pos == old(pos)
      ensures ident == if pos == old(pos) then "" else text[old(pos)..pos]
    {
      ident := "";
      while pos < |text| && IsLetter(text[pos])
        invariant old(pos) <= pos
        invariant pos == old(pos) || pos <= |text|
        invariant ident == if pos == old(pos) then "" else text[old(pos)..pos]
        invariant IdentEnd(text, pos) == IdentEnd(text, old(pos))
        decreases |text| - pos
      {
        ident := ident + [text[pos]];
        pos := pos + 1;
      }
    }

    /** The value loop of parseNode: values while the cursor is on '['. */
    method ParseValues() returns (values: seq<string>)
      modifies this
      ensures (values, pos) == ValuesAt(text, old(pos), [])
    {
      values := [];
      while IsAt(text, pos, '[')
        invariant ValuesAt(text, pos, values) == ValuesAt(text, old(pos), [])
        decreases |text| - pos
      {
        var value := ParseValue();
        values := values + [value];
        SkipWs();
      }
    }

    /** One pass of parseNode's loop, after the white space. */
    method ParseProperty(props: PropertyBag) returns (next: PropertyBag)
      modifies this
      ensures (next, pos) == PropertyAt(text, old(pos), props)
    {
      var ident := ReadIdent();
      if ident == "" {
        pos := pos + 1;
        return props;
      }
      SkipWs();
      var values := ParseValues();
      next := props[ident := Lookup(props, ident) + values];
    }

    method ParseNode() returns (props: PropertyBag)
      modifies this
      ensures (props, pos) == NodeAt(text, old(pos), map[])
    {
      props := map[];
      while pos < |text|
        invariant NodeAt(text, pos, props) == NodeAt(text, old(pos), map[])
        decreases |text| - pos
      {
        SkipWs();
        if EndsNode(text, pos) {
          break;
        }
        props := ParseProperty(props);
      }
    }

    /** The node loop of parseGameTree: a node after every ';'. */
    method ParseSequence() returns (sequence: seq<PropertyBag>)
      modifies this
      ensures (sequence, pos) == SequenceAt(text, old(pos), [])
    {
      sequence := [];
      while IsAt(text, pos, ';')
        invariant SequenceAt(text, pos, sequence) == SequenceAt(text, old(pos), [])
        decreases |text| - pos
      {
        pos := pos + 1;
        var props := ParseNode();
        sequence := sequence + [props];
        SkipWs();
      }
    }

    method ParseGameTree() returns (r: Result<GameTree, ParseError>)
      modifies this
      ensures TreeAt(text, old(pos)) == if r.Ok? then Ok((r.value, pos)) else Err(r.error)
      decreases |text| - pos, 0
    {
      if !IsAt(text, pos, '(') {
        return Err(ExpectedOpen(pos));
      }
      pos := pos + 1;
      SkipWs();

      var sequence := ParseSequence();
      ghost var afterSequence := pos;
      assert TreeAt(text, old(pos)) == TreeRest(text, sequence, afterSequence);

      var children := ParseChildren();
      if children.Err? {
        return Err(children.error);
      }
      if !IsAt(text, pos, ')') {
        return Err(ExpectedClose(pos));
      }
      pos := pos + 1;
      return Ok(GameTree(sequence, children.value));
    }

    /** The child-tree loop of parseGameTree: a tree while the cursor is on '('. */
    method ParseChildren() returns (r: Result<seq<GameTree>, ParseError>)
      modifies this
      ensures ChildrenAt(text, old(pos), []) == if r.Ok? then Ok((r.value, pos)) else Err(r.error)
      decreases |text| - pos, 1
    {
      var children := [];
      while IsAt(text, pos, '(')
        invariant old(pos) <= pos
        invariant ChildrenAt(text, pos, children) == ChildrenAt(text, old(pos), [])
        decreases |text| - pos
      {
        var child := ParseGameTree();
        if child.Err? {
          return Err(child.error);
        }
        children := children + [child.value];
        SkipWs();
      }
      return Ok(children);
    }
  }

  /** parseSgf */
  method ParseSgf(text: string) returns (r: Result<GameTree, ParseError>)
    ensures r == ParsedSgf(text)
  {
    var parser := new Parser(text);
    parser.SkipWs();
    ghost var start := parser.pos;
    var trees := [];
    while parser.pos < |text|
      invariant parser.text == text
      invariant TreesAt(text, parser.pos, trees) == TreesAt(text, start, [])
      decreases |text| - parser.pos
    {
      parser.SkipWs();
      if parser.pos >= |text| {
        break;
      }
      if text[parser.pos] != '(' {
        parser.pos := parser.pos + 1;
        continue;
      }
      var tree := parser.ParseGameTree();
      if tree.Err? {
        return Err(tree.error);
      }
      trees := trees + [tree.value];
      parser.SkipWs();
    }
    if |trees| == 0 {
      return Err(NoGameTree);
    }
    return Ok(trees[0]);
  }

  // ---------------------------------------------------------------------
  // The partner of the parser: writing a tree as SGF text
  // ---------------------------------------------------------------------

  /** SGF Text escaping: a backslash before every ']' and every backslash. */
  function Escape(s: string): (r: string)
    ensures |r| >= |s|
  {
    if s == [] then []
    else (if s[0] == ']' || s[0] == '\\' then ['\\', s[0]] else [s[0]]) + Escape(s[1..])
  }

  /** A property as written in a file: an identifier and its bracketed values. */
  datatype Property = Property(ident: string, values: seq<string>)

  /** A game tree as written in a file: nodes as property lists, then the variations. */
  datatype SourceTree = SourceTree(nodes: seq<seq<Property>>, children: seq<SourceTree>)

  /** Identifier code units: upper- and lower-case letters. */
  predicate AllLetters(s: string)
    decreases s
  {
    s == [] || (IsLetter(s[0]) && AllLetters(s[1..]))
  }

  /**
   * The all-letter names every JavaScript object inherits from
   * Object.prototype. A bag without such a key of its own finds the
   * inherited function there, and appending values to it throws.
   */
  predicate InheritedName(ident: string) {
    ident in {"constructor", "hasOwnProperty", "isPrototypeOf", "propertyIsEnumerable",
              "toLocaleString", "toString", "valueOf"}
  }

  /**
   * What the SGF grammar writes: an identifier of letters with at least one
   * value, and not a name the property bag already inherits.
   */
  predicate WellFormedProperty(p: Property) {
    |p.ident| > 0 && AllLetters(p.ident) && !InheritedName(p.ident) && |p.values| > 0
  }

  predicate WellFormedNode(ps: seq<Property>)
    decreases ps
  {
    ps == [] || (WellFormedProperty(ps[0]) && WellFormedNode(ps[1..]))
  }

  predicate WellFormedNodes(ns: seq<seq<Property>>)
    decreases ns
  {
    ns == [] || (WellFormedNode(ns[0]) && WellFormedNodes(ns[1..]))
  }

  predicate WellFormedTree(t: SourceTree)
    decreases t, |t.children| + 1
  {
    WellFormedNodes(t.nodes) && WellFormedChildren(t, 0)
  }

  predicate WellFormedChildren(t: SourceTree, k: nat)
    requires k <= |t.children|
    decreases t, |t.children| - k
  {
    k == |t.children| || (WellFormedTree(t.children[k]) && WellFormedChildren(t, k + 1))
  }

  function EmitValues(vs: seq<string>): string {
    if vs == [] then "" else "[" + (Escape(vs[0]) + ("]" + EmitValues(vs[1..])))
  }

  function EmitProperties(ps: seq<Property>): string {
    if ps == [] then "" else ps[0].ident + (EmitValues(ps[0].values) + EmitProperties(ps[1..]))
  }

  function EmitNodes(ns: seq<seq<Property>>): string {
    if ns == [] then "" else ";" + (EmitProperties(ns[0]) + EmitNodes(ns[1..]))
  }

  function EmitTree(t: SourceTree): (r: string)
    ensures |r| >= 2 && r[0] == '('
    decreases t, |t.children| + 1
  {
    "(" + (EmitNodes(t.nodes) + (EmitChildren(t, 0) + ")"))
  }

  /** The variations of t from the k-th on, written one after another. */
  function EmitChildren(t: SourceTree, k: nat): (r: string)
    requires k <= |t.children|
    decreases t, |t.children| - k
  {
    if k == |t.children| then "" else EmitTree(t.children[k]) + EmitChildren(t, k + 1)
  }

  /** A node's properties merged the way parseNode merges them. */
  function Collect(props: PropertyBag, ps: seq<Property>): PropertyBag
    decreases ps
  {
    if ps == [] then props
    else Collect(props[ps[0].ident := Lookup(props, ps[0].ident) + ps[0].values], ps[1..])
  }

  function CollectAll(ns: seq<seq<Property>>): (r: seq<PropertyBag>)
    ensures |r| == |ns|
  {
    if ns == [] then [] else [Collect(map[], ns[0])] + CollectAll(ns[1..])
  }

  /** The tree the parser is meant to read from the text EmitTree(t). */
  function Interpret(t: SourceTree): GameTree
    decreases t, |t.children| + 1
  {
    GameTree(CollectAll(t.nodes), InterpretChildren(t, 0))
  }

  function InterpretChildren(t: SourceTree, k: nat): (r: seq<GameTree>)
    requires k <= |t.children|
    ensures |r| == |t.children| - k
    decreases t, |t.children| - k
  {
    if k == |t.children| then [] else [Interpret(t.children[k])] + InterpretChildren(t, k + 1)
  }

  /** The values of one identifier over a property list, in order: the reference for Collect. */
  function ValuesOf(ps: seq<Property>, ident: string): seq<string> {
    if ps == [] then []
    else (if ps[0].ident == ident then ps[0].values else []) + ValuesOf(ps[1..], ident)
  }

  /** A repeated identifier keeps every value, in encounter order. */
  lemma {:induction false} CollectConcatenates(props: PropertyBag, ps: seq<Property>, ident: string)
    ensures Lookup(Collect(props, ps), ident) == Lookup(props, ident) + ValuesOf(ps, ident)
    decreases ps
  {
    if ps == [] {
      AppendNil(Lookup(props, ident));
    } else {
      var next := props[ps[0].ident := Lookup(props, ps[0].ident) + ps[0].values];
      CollectConcatenates(next, ps[1..], ident);
      var own := if ps[0].ident == ident then ps[0].values else [];
      assert Lookup(next, ident) == Lookup(props, ident) + own;
      AppendAssoc(Lookup(props, ident), own, ValuesOf(ps[1..], ident));
    }
  }

  /** The identifiers of a node are those of its properties: none is invented or lost. */
  lemma {:induction false} CollectKeys(props: PropertyBag, ps: seq<Property>, ident: string)
    ensures ident in Collect(props, ps) <==>
              ident in props || exists k :: 0 <= k < |ps| && ps[k].ident == ident
    decreases ps
  {
    if ps != [] {
      var next := props[ps[0].ident := Lookup(props, ps[0].ident) + ps[0].values];
      CollectKeys(next, ps[1..], ident);
      if exists k :: 0 <= k < |ps[1..]| && ps[1..][k].ident == ident {
        var k :| 0 <= k < |ps[1..]| && ps[1..][k].ident == ident;
        assert ps[k + 1].ident == ident;
      }
      if exists k :: 0 <= k < |ps| && ps[k].ident == ident {
        var k :| 0 <= k < |ps| && ps[k].ident == ident;
        if k > 0 {
          assert ps[1..][k - 1].ident == ident;
        }
      }
    }
  }

  // ---------------------------------------------------------------------
  // Round trip: the parser reads back what EmitTree writes
  // ---------------------------------------------------------------------

  lemma AppendNil<T>(a: seq<T>)
    ensures a + [] == a && [] + a == a
  {
  }

  lemma AppendAssoc<T>(a: seq<T>, b: seq<T>, c: seq<T>)
    ensures (a + b) + c == a + (b + c)
  {
  }

  lemma AppendCons<T>(acc: seq<T>, vs: seq<T>)
    requires vs != []
    ensures acc + [vs[0]] + vs[1..] == acc + vs
  {
    assert vs == [vs[0]] + vs[1..];
    AppendAssoc(acc, [vs[0]], vs[1..]);
  }

  /** e is written in text at position i. */
  predicate Occurs(e: string, text: string, i: nat)
    decreases e
  {
    i + |e| <= |text| && (e == [] || (text[i] == e[0] && Occurs(e[1..], text, i + 1)))
  }

  lemma {:induction false} OccursSplit(a: string, b: string, text: string, i: nat)
    requires Occurs(a + b, text, i)
    ensures Occurs(a, text, i) && Occurs(b, text, i + |a|)
    decreases a
  {
    if a != [] {
      assert (a + b)[1..] == a[1..] + b;
      OccursSplit(a[1..], b, text, i + 1);
    } else {
      assert a + b == b;
    }
  }

  lemma OccursHead(e: string, text: string, i: nat)
    requires Occurs(e, text, i) && |e| > 0
    ensures text[i] == e[0]
  {
  }

  lemma {:induction false} OccursAt(e: string, text: string, i: nat, k: nat)
    requires Occurs(e, text, i) && k < |e|
    ensures text[i + k] == e[k]
    decreases k
  {
    if k > 0 {
      OccursAt(e[1..], text, i + 1, k - 1);
    }
  }

  lemma {:induction false} OccursSuffix(text: string, k: nat)
    requires k <= |text|
    ensures Occurs(text[k..], text, k)
    decreases |text| - k
  {
    if k < |text| {
      OccursSuffix(text, k + 1);
      assert text[k..][1..] == text[k + 1..];
    }
  }

  lemma OccursWhole(text: string)
    ensures Occurs(text, text, 0)
  {
    OccursSuffix(text, 0);
    assert text[0..] == text;
  }

  /** A suffix of text that starts with e is an occurrence of e. */
  lemma {:induction false} OccursBefore(e: string, rest: string, text: string, i: nat)
    requires i <= |text| && text[i..] == e + rest
    ensures Occurs(e, text, i)
    decreases e
  {
    if e != [] {
      assert text[i] == text[i..][0];
      assert text[i + 1..] == text[i..][1..];
      assert (e + rest)[1..] == e[1..] + rest;
      OccursBefore(e[1..], rest, text, i + 1);
    }
  }

  /** The suffix of text after the first |x| code units of a suffix x + y. */
  lemma SuffixAfter(x: string, y: string, text: string, i: nat)
    requires i <= |text| && text[i..] == x + y
    ensures i + |x| <= |text| && text[i + |x|..] == y
  {
    assert text[i + |x|..] == text[i..][|x|..];
  }

  /** The piece e at the front of text. */
  lemma OccursFirst(e: string, rest: string, text: string)
    requires text == e + rest
    ensures Occurs(e, text, 0)
  {
    assert text[0..] == text;
    OccursBefore(e, rest, text, 0);
  }

  /** The piece e that the suffix from i consists of. */
  lemma OccursLast(e: string, text: string, i: nat)
    requires i <= |text| && text[i..] == e
    ensures Occurs(e, text, i)
  {
    assert e == e + [];
    OccursBefore(e, [], text, i);
  }

  /** Where the three pieces of a + (b + c) are written in it: b from i, c from j. */
  lemma OccursThree(a: string, b: string, c: string, text: string, i: nat, j: nat)
    requires text == a + (b + c)
    requires i == |a| && j == i + |b|
    ensures Occurs(a, text, 0) && Occurs(b, text, i) && Occurs(c, text, j)
  {
    OccursFirst(a, b + c, text);
    SuffixAfter(a, b + c, text, 0);
    SuffixAfter(b, c, text, i);
    OccursBefore(b, c, text, i);
    OccursLast(c, text, j);
  }

  /** Where the four pieces of a + (b + (c + d)) are written in it: b from i, c from j, d from k. */
  lemma OccursFour(a: string, b: string, c: string, d: string, text: string, i: nat, j: nat, k: nat)
    requires text == a + (b + (c + d))
    requires i == |a| && j == i + |b| && k == j + |c|
    ensures Occurs(a, text, 0) && Occurs(b, text, i) && Occurs(c, text, j) && Occurs(d, text, k)
  {
    OccursThree(a, b, c + d, text, i, j);
    OccursSplit(c, d, text, j);
  }

  // Each read-back lemma names the positions where the pieces of the written
  // text begin and end (i, j, k, e) rather than computing them, so that the
  // facts one lemma provides are literally the facts the next one requires.

  /** A written value run: '[' at i, the escaped first value, ']' at k, the rest from j to e. */
  lemma ValuesPeel(text: string, i: nat, vs: seq<string>, k: nat, j: nat, e: nat)
    requires vs != [] && Occurs(EmitValues(vs), text, i) && i + |EmitValues(vs)| == e
    requires k == i + 1 + |Escape(vs[0])| && j == k + 1
    ensures IsAt(text, i, '[') && IsAt(text, k, ']')
    ensures Occurs(Escape(vs[0]), text, i + 1) && i + 1 + |Escape(vs[0])| == k
    ensures Occurs(EmitValues(vs[1..]), text, j) && j + |EmitValues(vs[1..])| == e
  {
    var x := Escape(vs[0]);
    var rest := EmitValues(vs[1..]);
    OccursSplit("[", x + ("]" + rest), text, i);
    OccursSplit(x, "]" + rest, text, i + 1);
    OccursSplit("]", rest, text, k);
    OccursHead("[", text, i);
    OccursHead("]", text, k);
  }

  /** A written property run: the first identifier from i to k, its values to n, the rest to e. */
  lemma PropertiesPeel(text: string, i: nat, ps: seq<Property>, k: nat, n: nat, e: nat)
    requires ps != [] && Occurs(EmitProperties(ps), text, i) && i + |EmitProperties(ps)| == e
    requires k == i + |ps[0].ident| && n == k + |EmitValues(ps[0].values)|
    ensures Occurs(ps[0].ident, text, i) && i + |ps[0].ident| == k
    ensures Occurs(EmitValues(ps[0].values), text, k) && k + |EmitValues(ps[0].values)| == n
    ensures Occurs(EmitProperties(ps[1..]), text, n) && n + |EmitProperties(ps[1..])| == e
  {
    var values := EmitValues(ps[0].values);
    var rest := EmitProperties(ps[1..]);
    OccursSplit(ps[0].ident, values + rest, text, i);
    OccursSplit(values, rest, text, k);
  }

  /** A written node sequence: ';' at i, the first node's properties to j, the rest to e. */
  lemma NodesPeel(text: string, i: nat, ns: seq<seq<Property>>, j: nat, e: nat)
    requires ns != [] && Occurs(EmitNodes(ns), text, i) && i + |EmitNodes(ns)| == e
    requires j == i + 1 + |EmitProperties(ns[0])|
    ensures IsAt(text, i, ';')
    ensures Occurs(EmitProperties(ns[0]), text, i + 1) && i + 1 + |EmitProperties(ns[0])| == j
    ensures Occurs(EmitNodes(ns[1..]), text, j) && j + |EmitNodes(ns[1..])| == e
  {
    var node := EmitProperties(ns[0]);
    var rest := EmitNodes(ns[1..]);
    OccursSplit(";", node + rest, text, i);
    OccursSplit(node, rest, text, i + 1);
    OccursHead(";", text, i);
  }

  /** A written tree: '(' at i, its nodes to j, its variations to k, ')' at k, ending at e. */
  lemma TreePeel(text: string, i: nat, t: SourceTree, j: nat, k: nat, e: nat)
    requires Occurs(EmitTree(t), text, i) && i + |EmitTree(t)| == e
    requires j == i + 1 + |EmitNodes(t.nodes)| && k == j + |EmitChildren(t, 0)|
    ensures IsAt(text, i, '(') && IsAt(text, k, ')') && e == k + 1
    ensures Occurs(EmitNodes(t.nodes), text, i + 1) && i + 1 + |EmitNodes(t.nodes)| == j
    ensures Occurs(EmitChildren(t, 0), text, j) && j + |EmitChildren(t, 0)| == k
  {
    var nodes := EmitNodes(t.nodes);
    var children := EmitChildren(t, 0);
    OccursSplit("(", nodes + (children + ")"), text, i);
    OccursSplit(nodes, children + ")", text, i + 1);
    OccursSplit(children, ")", text, j);
    OccursHead("(", text, i);
    OccursHead(")", text, k);
  }

  /** A written run of variations: the first tree from i to j, the rest to e. */
  lemma ChildrenPeel(text: string, i: nat, t: SourceTree, k: nat, j: nat, e: nat)
    requires k < |t.children| && Occurs(EmitChildren(t, k), text, i) && i + |EmitChildren(t, k)| == e
    requires j == i + |EmitTree(t.children[k])|
    ensures Occurs(EmitTree(t.children[k]), text, i) && i + |EmitTree(t.children[k])| == j
    ensures Occurs(EmitChildren(t, k + 1), text, j) && j + |EmitChildren(t, k + 1)| == e
  {
    OccursSplit(EmitTree(t.children[k]), EmitChildren(t, k + 1), text, i);
  }

  lemma DelimiterNotWs(c: char)
    requires c == ';' || c == '(' || c == ')' || c == '[' || c == ']' || IsLetter(c)
    ensures !IsWs(c)
  {
  }

  /** One escaped code unit at the front of Escape(v), ending at n; the rest of Escape(v) to e. */
  lemma EscapePeel(text: string, i: nat, v: string, n: nat, e: nat)
    requires v != [] && Occurs(Escape(v), text, i) && i + |Escape(v)| == e
    requires n == i + (if v[0] == ']' || v[0] == '\\' then 2 else 1)
    ensures v[0] == ']' || v[0] == '\\' ==> i + 1 < |text| && text[i] == '\\' && text[i + 1] == v[0]
    ensures !(v[0] == ']' || v[0] == '\\') ==> i < |text| && text[i] == v[0]
    ensures Occurs(Escape(v[1..]), text, n) && n + |Escape(v[1..])| == e
  {
    var head: string := if v[0] == ']' || v[0] == '\\' then ['\\', v[0]] else [v[0]];
    OccursSplit(head, Escape(v[1..]), text, i);
    OccursAt(head, text, i, 0);
    if |head| == 2 {
      OccursAt(head, text, i, 1);
    }
  }

  /** An escaped value from i to e, followed by ']' at e, is read back as the value itself. */
  lemma {:induction false} ValueBodyReadsEscaped(text: string, i: nat, out: string, v: string, e: nat)
    requires Occurs(Escape(v), text, i) && i + |Escape(v)| == e && IsAt(text, e, ']')
    ensures ValueBody(text, i, out).0 == out + v
    ensures ValueBody(text, i, out).1 == e + 1
    decreases v
  {
    if v == [] {
      AppendNil(out);
    } else {
      var n := i + (if v[0] == ']' || v[0] == '\\' then 2 else 1);
      EscapePeel(text, i, v, n, e);
      assert ValueBody(text, i, out) == ValueBody(text, n, out + [v[0]]);
      ValueBodyReadsEscaped(text, n, out + [v[0]], v[1..], e);
      AppendCons(out, v);
    }
  }

  /** After a value, the value loop goes on from the next non-blank position. */
  lemma ValuesAtStep(text: string, i: nat, acc: seq<string>, v: string, j: nat)
    requires IsAt(text, i, '[')
    requires ValueAt(text, i).0 == v && ValueAt(text, i).1 == j
    requires Solid(text, j)
    ensures ValuesAt(text, i, acc) == ValuesAt(text, j, acc + [v])
  {
    assert WsEnd(text, j) == j;
  }

  /** A written value run starts with '[', or is empty and starts at its end. */
  lemma ValuesStart(text: string, i: nat, vs: seq<string>, e: nat)
    requires Occurs(EmitValues(vs), text, i) && i + |EmitValues(vs)| == e
    requires Solid(text, e)
    ensures Solid(text, i)
    ensures vs != [] ==> i < |text| && text[i] == '['
    ensures vs == [] ==> i == e
  {
    if vs != [] {
      OccursHead(EmitValues(vs), text, i);
      DelimiterNotWs(text[i]);
    }
  }

  /**
   * Bracketed values from i to e are read back one by one, provided what
   * follows them is neither white space nor another '[' (or is the end).
   */
  lemma {:induction false} ValuesReadBack(text: string, i: nat, acc: seq<string>, vs: seq<string>, e: nat)
    requires Occurs(EmitValues(vs), text, i) && i + |EmitValues(vs)| == e
    requires e >= |text| || (!IsWs(text[e]) && text[e] != '[')
    ensures ValuesAt(text, i, acc).0 == acc + vs
    ensures ValuesAt(text, i, acc).1 == e
    decreases vs
  {
    ValuesStart(text, i, vs, e);
    if vs == [] {
      AppendNil(acc);
    } else {
      var k := i + 1 + |Escape(vs[0])|;
      var j := k + 1;
      ValuesPeel(text, i, vs, k, j, e);
      ValueBodyReadsEscaped(text, i + 1, "", vs[0], k);
      AppendNil(vs[0]);
      ValuesStart(text, j, vs[1..], e);
      ValuesAtStep(text, i, acc, vs[0], j);
      ValuesReadBack(text, j, acc + [vs[0]], vs[1..], e);
      AppendCons(acc, vs);
    }
  }

  lemma {:induction false} IdentReadBack(text: string, i: nat, ident: string, e: nat)
    requires Occurs(ident, text, i) && i + |ident| == e
    requires AllLetters(ident)
    requires e >= |text| || !IsLetter(text[e])
    ensures IdentEnd(text, i) == e
    ensures text[i..e] == ident
    decreases ident
  {
    if ident != [] {
      IdentReadBack(text, i + 1, ident[1..], e);
      assert text[i..e] == [text[i]] + text[i + 1..e];
    }
  }

  /** One written property, identifier from i to k and values to e, is one pass of parseNode's loop. */
  lemma PropertyReadBack(text: string, i: nat, props: PropertyBag, p: Property, k: nat, e: nat)
    requires WellFormedProperty(p)
    requires Occurs(p.ident, text, i) && i + |p.ident| == k
    requires Occurs(EmitValues(p.values), text, k) && k + |EmitValues(p.values)| == e
    requires e >= |text| || (!IsWs(text[e]) && text[e] != '[')
    ensures PropertyAt(text, i, props).0 == props[p.ident := Lookup(props, p.ident) + p.values]
    ensures PropertyAt(text, i, props).1 == e
  {
    ValuesStart(text, k, p.values, e);
    IdentReadBack(text, i, p.ident, k);
    assert WsEnd(text, k) == k;
    ValuesReadBack(text, k, [], p.values, e);
    AppendNil(p.values);
  }

  /** On a letter, parseNode reads a property and goes on from where it ends. */
  lemma NodeAtLetter(text: string, i: nat, props: PropertyBag)
    requires i < |text| && IsLetter(text[i])
    ensures NodeAt(text, i, props) == NodeAt(text, PropertyAt(text, i, props).1, PropertyAt(text, i, props).0)
  {
    DelimiterNotWs(text[i]);
    assert WsEnd(text, i) == i;
  }

  /** A written property run starts on a letter, or is empty and starts on what follows it: a delimiter, a letter or the end. */
  lemma PropertiesStart(text: string, i: nat, ps: seq<Property>, e: nat)
    requires WellFormedNode(ps)
    requires Occurs(EmitProperties(ps), text, i) && i + |EmitProperties(ps)| == e
    requires EndsNode(text, e) || e >= |text| || IsLetter(text[e])
    ensures i >= |text| || (!IsWs(text[i]) && text[i] != '[')
    ensures ps != [] ==> i < |text| && IsLetter(text[i])
    ensures ps == [] ==> i == e
  {
    if ps != [] {
      assert WellFormedProperty(ps[0]);
      OccursHead(EmitProperties(ps), text, i);
    }
    if i < |text| {
      DelimiterNotWs(text[i]);
    }
  }

  /** A written node from i to e is read back as its merged properties; it ends on ';', '(' or ')' or at the end. */
  lemma {:induction false} PropertiesReadBack(text: string, i: nat, props: PropertyBag, ps: seq<Property>, e: nat)
    requires WellFormedNode(ps)
    requires Occurs(EmitProperties(ps), text, i) && i + |EmitProperties(ps)| == e
    requires EndsNode(text, e) || e >= |text|
    ensures NodeAt(text, i, props).0 == Collect(props, ps)
    ensures NodeAt(text, i, props).1 == e
    decreases ps
  {
    PropertiesStart(text, i, ps, e);
    if ps == [] {
      assert WsEnd(text, i) == i;
    } else {
      var p := ps[0];
      var k := i + |p.ident|;
      var n := k + |EmitValues(p.values)|;
      var next := props[p.ident := Lookup(props, p.ident) + p.values];
      PropertiesPeel(text, i, ps, k, n, e);
      PropertiesStart(text, n, ps[1..], e);
      PropertyReadBack(text, i, props, p, k, n);
      NodeAtLetter(text, i, props);
      PropertiesReadBack(text, n, next, ps[1..], e);
    }
  }

  /** After ';' and a node, the node loop goes on from the next non-blank position. */
  lemma SequenceAtStep(text: string, i: nat, acc: seq<PropertyBag>, props: PropertyBag, j: nat)
    requires IsAt(text, i, ';')
    requires NodeAt(text, i + 1, map[]).0 == props && NodeAt(text, i + 1, map[]).1 == j
    requires Solid(text, j)
    ensures SequenceAt(text, i, acc) == SequenceAt(text, j, acc + [props])
  {
    assert WsEnd(text, j) == j;
  }

  /** A written node sequence starts on ';', or is empty and starts on the ';', '(' or ')' (or end) after it. */
  lemma NodesStart(text: string, i: nat, ns: seq<seq<Property>>, e: nat)
    requires Occurs(EmitNodes(ns), text, i) && i + |EmitNodes(ns)| == e
    requires EndsNode(text, e) || e >= |text|
    ensures i >= |text| || (!IsWs(text[i]) && EndsNode(text, i))
    ensures ns != [] ==> i < |text| && text[i] == ';'
    ensures ns == [] ==> i == e
  {
    if ns != [] {
      OccursHead(EmitNodes(ns), text, i);
    }
    if i < |text| {
      DelimiterNotWs(text[i]);
    }
  }

  lemma {:induction false} NodesReadBack(text: string, i: nat, acc: seq<PropertyBag>, ns: seq<seq<Property>>, e: nat)
    requires WellFormedNodes(ns)
    requires Occurs(EmitNodes(ns), text, i) && i + |EmitNodes(ns)| == e
    requires IsAt(text, e, '(') || IsAt(text, e, ')') || e >= |text|
    ensures SequenceAt(text, i, acc).0 == acc + CollectAll(ns)
    ensures SequenceAt(text, i, acc).1 == e
    decreases ns
  {
    NodesStart(text, i, ns, e);
    if ns == [] {
      AppendNil(acc);
    } else {
      var j := i + 1 + |EmitProperties(ns[0])|;
      var props := Collect(map[], ns[0]);
      NodesPeel(text, i, ns, j, e);
      NodesStart(text, j, ns[1..], e);
      PropertiesReadBack(text, i + 1, map[], ns[0], j);
      SequenceAtStep(text, i, acc, props, j);
      NodesReadBack(text, j, acc + [props], ns[1..], e);
      AppendAssoc(acc, [props], CollectAll(ns[1..]));
    }
  }

  /** parseGameTree put together from its parts. */
  lemma TreeAtParts(text: string, i: nat, sq: seq<PropertyBag>, j: nat, cs: seq<GameTree>, k: nat, e: nat)
    requires IsAt(text, i, '(') && i + 1 < |text| && !IsWs(text[i + 1])
    requires SequenceAt(text, i + 1, []).0 == sq && SequenceAt(text, i + 1, []).1 == j
    requires ChildrenAt(text, j, []).Ok?
    requires ChildrenAt(text, j, []).value.0 == cs && ChildrenAt(text, j, []).value.1 == k
    requires IsAt(text, k, ')') && e == k + 1
    ensures TreeAt(text, i).Ok?
    ensures TreeAt(text, i).value.0 == GameTree(sq, cs) && TreeAt(text, i).value.1 == e
  {
    assert WsEnd(text, i + 1) == i + 1;
  }

  /** A written tree from i to e is read back as the tree it was written from. */
  lemma {:induction false} TreeReadBack(text: string, i: nat, t: SourceTree, e: nat)
    requires WellFormedTree(t)
    requires Occurs(EmitTree(t), text, i) && i + |EmitTree(t)| == e
    ensures TreeAt(text, i).Ok?
    ensures TreeAt(text, i).value.0 == Interpret(t)
    ensures TreeAt(text, i).value.1 == e
    decreases t, |t.children| + 1
  {
    var j := i + 1 + |EmitNodes(t.nodes)|;
    var k := j + |EmitChildren(t, 0)|;
    TreePeel(text, i, t, j, k, e);
    ChildrenStart(text, j, t, 0, k);
    NodesStart(text, i + 1, t.nodes, j);
    NodesReadBack(text, i + 1, [], t.nodes, j);
    ChildrenReadBack(text, j, [], t, 0, k);
    AppendNil(CollectAll(t.nodes));
    AppendNil(InterpretChildren(t, 0));
    TreeAtParts(text, i, CollectAll(t.nodes), j, InterpretChildren(t, 0), k, e);
  }

  /** A written run of variations starts on '(', or is empty and starts on the '(' or ')' (or end) after it. */
  lemma ChildrenStart(text: string, i: nat, t: SourceTree, k: nat, e: nat)
    requires k <= |t.children|
    requires Occurs(EmitChildren(t, k), text, i) && i + |EmitChildren(t, k)| == e
    requires IsAt(text, e, '(') || IsAt(text, e, ')') || e >= |text|
    ensures Solid(text, i)
    ensures k < |t.children| ==> i < |text| && text[i] == '('
    ensures k == |t.children| ==> i == e
  {
    if k < |t.children| {
      OccursSplit(EmitTree(t.children[k]), EmitChildren(t, k + 1), text, i);
      OccursHead(EmitTree(t.children[k]), text, i);
    }
    if i < |text| {
      DelimiterNotWs(text[i]);
    }
  }

  /** After a tree, the child-tree loop goes on from the next non-blank position. */
  lemma ChildrenAtStep(text: string, i: nat, acc: seq<GameTree>, c: GameTree, j: nat)
    requires IsAt(text, i, '(')
    requires TreeAt(text, i).Ok? && TreeAt(text, i).value.0 == c && TreeAt(text, i).value.1 == j
    requires Solid(text, j)
    ensures ChildrenAt(text, i, acc) == ChildrenAt(text, j, acc + [c])
  {
    assert WsEnd(text, j) == j;
  }

  lemma {:induction false} ChildrenReadBack(text: string, i: nat, acc: seq<GameTree>, t: SourceTree, k: nat, e: nat)
    requires k <= |t.children| && WellFormedChildren(t, k)
    requires Occurs(EmitChildren(t, k), text, i) && i + |EmitChildren(t, k)| == e
    requires IsAt(text, e, ')') || e >= |text|
    ensures ChildrenAt(text, i, acc).Ok?
    ensures ChildrenAt(text, i, acc).value.0 == acc + InterpretChildren(t, k)
    ensures ChildrenAt(text, i, acc).value.1 == e
    decreases t, |t.children| - k
  {
    ChildrenStart(text, i, t, k, e);
    if k == |t.children| {
      AppendNil(acc);
    } else {
      var c := Interpret(t.children[k]);
      var j := i + |EmitTree(t.children[k])|;
      ChildrenPeel(text, i, t, k, j, e);
      TreeReadBack(text, i, t.children[k], j);
      ChildrenStart(text, j, t, k + 1, e);
      ChildrenAtStep(text, i, acc, c, j);
      ChildrenReadBack(text, j, acc + [c], t, k + 1, e);
      AppendAssoc(acc, [c], InterpretChildren(t, k + 1));
    }
  }

  /** The top-level loop reads one tree at i and goes on after it. */
  lemma TreesAtStep(text: string, i: nat, acc: seq<GameTree>, t: GameTree, j: nat)
    requires IsAt(text, i, '(')
    requires TreeAt(text, i).Ok? && TreeAt(text, i).value.0 == t && TreeAt(text, i).value.1 == j
    requires j == |text| || (j < |text| && !IsWs(text[j]))
    ensures TreesAt(text, i, acc) == TreesAt(text, j, acc + [t])
  {
    assert WsEnd(text, i) == i;
    assert WsEnd(text, j) == j;
  }

  /** A written tree from i to e, at top level, is one pass of parseSgf's loop. */
  lemma TreesReadBack(text: string, i: nat, acc: seq<GameTree>, t: SourceTree, e: nat)
    requires WellFormedTree(t)
    requires Occurs(EmitTree(t), text, i) && i + |EmitTree(t)| == e
    requires e == |text| || (e < |text| && !IsWs(text[e]))
    ensures TreesAt(text, i, acc) == TreesAt(text, e, acc + [Interpret(t)])
  {
    TreeReadBack(text, i, t, e);
    OccursHead(EmitTree(t), text, i);
    TreesAtStep(text, i, acc, Interpret(t), e);
  }

  /** parseSgf reads back the tree a well-formed SGF text was written from. */
  lemma ParseRoundTrip(t: SourceTree)
    requires WellFormedTree(t)
    ensures ParsedSgf(EmitTree(t)) == Ok(Interpret(t))
  {
    var text := EmitTree(t);
    OccursWhole(text);
    TreesReadBack(text, 0, [], t, |text|);
    assert WsEnd(text, 0) == 0;
  }

  /** With several top-level trees only the first is kept; the later ones are still read. */
  lemma FirstTreeKept(t: SourceTree, u: SourceTree)
    requires WellFormedTree(t) && WellFormedTree(u)
    ensures ParsedSgf(EmitTree(t) + EmitTree(u)) == Ok(Interpret(t))
  {
    var text := EmitTree(t) + EmitTree(u);
    var n := |EmitTree(t)|;
    OccursWhole(text);
    OccursSplit(EmitTree(t), EmitTree(u), text, 0);
    OccursHead(EmitTree(u), text, n);
    DelimiterNotWs(text[n]);
    TreesReadBack(text, 0, [], t, n);
    AppendNil([Interpret(t)]);
    TreesReadBack(text, n, [Interpret(t)], u, |text|);
    assert WsEnd(text, 0) == 0;
  }

  // ---------------------------------------------------------------------
  // Error paths
  // ---------------------------------------------------------------------

  lemma {:induction false} NoOpenSkipsAll(text: string, i: nat, acc: seq<GameTree>)
    requires forall k :: i <= k < |text| ==> text[k] != '('
    ensures TreesAt(text, i, acc) == Ok(acc)
    decreases |text| - i
  {
    if i < |text| {
      var j := WsEnd(text, i);
      if j < |text| {
        NoOpenSkipsAll(text, j + 1, acc);
      }
    }
  }

  /** A text without '(' holds no game tree. */
  lemma NoOpenParenFails(text: string)
    requires forall k :: 0 <= k < |text| ==> text[k] != '('
    ensures ParsedSgf(text) == Err(NoGameTree)
  {
    NoOpenSkipsAll(text, WsEnd(text, 0), []);
  }

  lemma {:induction false} UnclosedFailsFrom(text: string, i: nat, acc: seq<GameTree>)
    requires exists k :: i <= k < |text| && text[k] == '('
    requires forall k :: 0 <= k < |text| ==> text[k] != ')'
    ensures TreesAt(text, i, acc).Err? && TreesAt(text, i, acc).error.ExpectedClose?
    decreases |text| - i
  {
    var k :| i <= k < |text| && text[k] == '(';
    var j := WsEnd(text, i);
    assert j <= k by {
      if j > k {
        assert i <= k < j;
        WsRunIsWs(text, i, k);
      }
    }
    if text[j] != '(' {
      UnclosedFailsFrom(text, j + 1, acc);
    }
  }

  lemma {:induction false} WsRunIsWs(text: string, i: nat, k: nat)
    requires i <= k < WsEnd(text, i)
    ensures IsWs(text[k])
    decreases |text| - i
  {
    if k > i {
      WsRunIsWs(text, i + 1, k);
    }
  }

  /** A text with a '(' but no ')' fails with ExpectedClose. */
  lemma UnclosedFails(text: string)
    requires exists k :: 0 <= k < |text| && text[k] == '('
    requires forall k :: 0 <= k < |text| ==> text[k] != ')'
    ensures ParsedSgf(text).Err? && ParsedSgf(text).error.ExpectedClose?
  {
    var k :| 0 <= k < |text| && text[k] == '(';
    var j := WsEnd(text, 0);
    assert j <= k by {
      if j > k {
        WsRunIsWs(text, 0, k);
      }
    }
    UnclosedFailsFrom(text, j, []);
  }

  /** A tree whose nodes and variations are written from i to the very end of the text fails for want of its ')'. */
  lemma TreeAtEndFails(text: string, t: SourceTree)
    requires WellFormedTree(t)
    requires text == "(" + (EmitNodes(t.nodes) + EmitChildren(t, 0))
    ensures TreeAt(text, 0) == Err(ExpectedClose(|text|))
  {
    var j := 1 + |EmitNodes(t.nodes)|;
    assert j + |EmitChildren(t, 0)| == |text|;
    OccursThree("(", EmitNodes(t.nodes), EmitChildren(t, 0), text, 1, j);
    OccursHead("(", text, 0);
    TreeBodyToEnd(text, t, j);
  }

  /** The positions of TreeAtEndFails: '(' at 0, the nodes from 1 to j, the variations from j to the end. */
  lemma TreeBodyToEnd(text: string, t: SourceTree, j: nat)
    requires WellFormedTree(t) && IsAt(text, 0, '(')
    requires Occurs(EmitNodes(t.nodes), text, 1) && 1 + |EmitNodes(t.nodes)| == j
    requires Occurs(EmitChildren(t, 0), text, j) && j + |EmitChildren(t, 0)| == |text|
    ensures TreeAt(text, 0) == Err(ExpectedClose(|text|))
  {
    var e := |text|;
    ChildrenStart(text, j, t, 0, e);
    NodesStart(text, 1, t.nodes, j);
    NodesReadBack(text, 1, [], t.nodes, j);
    ChildrenReadBack(text, j, [], t, 0, e);
    assert WsEnd(text, 1) == 1;
  }

  /**
   * Any record the serializer writes, cut short by its final ')', fails with
   * ExpectedClose at the end of the text: the nodes and variations are all
   * read, and then the ')' parseGameTree expects is missing.
   */
  lemma TruncatedTreeFails(t: SourceTree)
    requires WellFormedTree(t)
    ensures var text := EmitTree(t)[..|EmitTree(t)| - 1];
      ParsedSgf(text) == Err(ExpectedClose(|text|))
  {
    var whole := EmitTree(t);
    var text := whole[..|whole| - 1];
    assert text == "(" + (EmitNodes(t.nodes) + EmitChildren(t, 0));
    TreeAtEndFails(text, t);
    DelimiterNotWs(text[0]);
    assert WsEnd(text, 0) == 0;
    assert TreesAt(text, 0, []) == Err(ExpectedClose(|text|));
  }

  // A value whose '[' has no later ']' runs to the end of the text and takes
  // every ')' after it as part of the value: the tree it is in, and every
  // tree around that one, is then missing its ')'.

  /** A node written up to a value that is never closed: its properties, then an identifier and '[' with v. */
  function OpenNode(ps: seq<Property>, ident: string, v: string): string {
    ";" + (EmitProperties(ps) + (ident + ("[" + v)))
  }

  /** A tree written up to a value that is never closed, in its last node. */
  function EmitOpenValue(ns: seq<seq<Property>>, ps: seq<Property>, ident: string, v: string): (r: string)
    ensures |r| > 0 && r[0] == '('
  {
    "(" + (EmitNodes(ns) + OpenNode(ps, ident, v))
  }

  /** Written properties from i to e, followed by a letter at e, are read and parseNode goes on at e. */
  lemma {:induction false} PropertiesReadOn(text: string, i: nat, props: PropertyBag, ps: seq<Property>, e: nat)
    requires WellFormedNode(ps)
    requires Occurs(EmitProperties(ps), text, i) && i + |EmitProperties(ps)| == e
    requires e < |text| && IsLetter(text[e])
    ensures NodeAt(text, i, props) == NodeAt(text, e, Collect(props, ps))
    decreases ps
  {
    PropertiesStart(text, i, ps, e);
    if ps != [] {
      var p := ps[0];
      var k := i + |p.ident|;
      var n := k + |EmitValues(p.values)|;
      var next := props[p.ident := Lookup(props, p.ident) + p.values];
      PropertiesPeel(text, i, ps, k, n, e);
      PropertiesStart(text, n, ps[1..], e);
      PropertyReadBack(text, i, props, p, k, n);
      NodeAtLetter(text, i, props);
      PropertiesReadOn(text, n, next, ps[1..], e);
    }
  }

  /** Written nodes from i to e, followed by another ';' at e, are read and the node loop goes on at e. */
  lemma {:induction false} NodesReadOn(text: string, i: nat, acc: seq<PropertyBag>, ns: seq<seq<Property>>, e: nat)
    requires WellFormedNodes(ns)
    requires Occurs(EmitNodes(ns), text, i) && i + |EmitNodes(ns)| == e
    requires IsAt(text, e, ';')
    ensures SequenceAt(text, i, acc) == SequenceAt(text, e, acc + CollectAll(ns))
    decreases ns
  {
    NodesStart(text, i, ns, e);
    if ns == [] {
      AppendNil(acc);
    } else {
      var j := i + 1 + |EmitProperties(ns[0])|;
      var props := Collect(map[], ns[0]);
      NodesPeel(text, i, ns, j, e);
      NodesStart(text, j, ns[1..], e);
      PropertiesReadBack(text, i + 1, map[], ns[0], j);
      SequenceAtStep(text, i, acc, props, j);
      NodesReadOn(text, j, acc + [props], ns[1..], e);
      AppendAssoc(acc, [props], CollectAll(ns[1..]));
    }
  }

  /** Written variations from i to e, followed by another '(' at e, are read and the child-tree loop goes on at e. */
  lemma {:induction false} ChildrenReadOn(text: string, i: nat, acc: seq<GameTree>, t: SourceTree, k: nat, e: nat)
    requires k <= |t.children| && WellFormedChildren(t, k)
    requires Occurs(EmitChildren(t, k), text, i) && i + |EmitChildren(t, k)| == e
    requires IsAt(text, e, '(')
    ensures ChildrenAt(text, i, acc) == ChildrenAt(text, e, acc + InterpretChildren(t, k))
    decreases |t.children| - k
  {
    ChildrenStart(text, i, t, k, e);
    if k == |t.children| {
      AppendNil(acc);
    } else {
      var c := Interpret(t.children[k]);
      var j := i + |EmitTree(t.children[k])|;
      ChildrenPeel(text, i, t, k, j, e);
      TreeReadBack(text, i, t.children[k], j);
      ChildrenStart(text, j, t, k + 1, e);
      ChildrenAtStep(text, i, acc, c, j);
      ChildrenReadOn(text, j, acc + [c], t, k + 1, e);
      AppendAssoc(acc, [c], InterpretChildren(t, k + 1));
    }
  }

  /** '[' at m followed by v, up to the end of the text, leaves no ']' after m when v has none. */
  lemma NoCloseAfter(text: string, m: nat, v: string)
    requires Occurs("[" + v, text, m) && m + 1 + |v| == |text|
    requires ']' !in v
    ensures IsAt(text, m, '[')
    ensures forall q :: m < q < |text| ==> text[q] != ']'
  {
    OccursAt("[" + v, text, m, 0);
    forall q | m < q < |text|
      ensures text[q] != ']'
    {
      OccursAt("[" + v, text, m, q - m);
      assert ("[" + v)[q - m] == v[q - m - 1];
    }
  }

  /** A property at k whose value opens at m with no later ']' takes parseNode to the end of the text. */
  lemma PropertyToEnd(text: string, k: nat, m: nat, props: PropertyBag)
    requires k < m && IdentEnd(text, k) == m && IsAt(text, m, '[')
    requires forall q :: m < q < |text| ==> text[q] != ']'
    ensures NodeAt(text, k, props).1 == |text|
  {
    assert IsLetter(text[k]);
    NodeAtLetter(text, k, props);
    assert WsEnd(text, m) == m;
    assert ValueAt(text, m).1 == |text|;
    assert WsEnd(text, |text|) == |text|;
    assert ValuesAt(text, m, []).1 == |text|;
    assert PropertyAt(text, k, props).1 == |text|;
  }

  /** A node with a value that is never closed, written from j to the end of the text, is read to the end. */
  lemma OpenNodeToEnd(text: string, j: nat, ps: seq<Property>, ident: string, v: string)
    requires WellFormedNode(ps) && |ident| > 0 && AllLetters(ident) && ']' !in v
    requires Occurs(OpenNode(ps, ident, v), text, j) && j + |OpenNode(ps, ident, v)| == |text|
    ensures IsAt(text, j, ';')
    ensures NodeAt(text, j + 1, map[]).1 == |text|
  {
    var k := j + 1 + |EmitProperties(ps)|;
    var m := k + |ident|;
    OccursSplit(";", EmitProperties(ps) + (ident + ("[" + v)), text, j);
    OccursHead(";", text, j);
    OccursSplit(EmitProperties(ps), ident + ("[" + v), text, j + 1);
    OccursSplit(ident, "[" + v, text, k);
    OccursHead(ident, text, k);
    NoCloseAfter(text, m, v);
    IdentReadBack(text, k, ident, m);
    PropertiesReadOn(text, j + 1, map[], ps, k);
    PropertyToEnd(text, k, m, Collect(map[], ps));
  }

  /** A tree on '(' whose node sequence runs to the end of the text fails for want of its ')'. */
  lemma SequenceToEndFails(text: string, i: nat)
    requires IsAt(text, i, '(')
    requires SequenceAt(text, WsEnd(text, i + 1), []).1 == |text|
    ensures TreeAt(text, i) == Err(ExpectedClose(|text|))
  {
    assert ChildrenAt(text, |text|, []) == Ok(([], |text|));
  }

  /** A tree written from i up to a value that is never closed, at the end of the text, fails at the end. */
  lemma OpenTreeFails(text: string, i: nat, ns: seq<seq<Property>>, ps: seq<Property>, ident: string, v: string)
    requires WellFormedNodes(ns) && WellFormedNode(ps) && |ident| > 0 && AllLetters(ident) && ']' !in v
    requires Occurs(EmitOpenValue(ns, ps, ident, v), text, i) && i + |EmitOpenValue(ns, ps, ident, v)| == |text|
    ensures TreeAt(text, i) == Err(ExpectedClose(|text|))
  {
    var j := i + 1 + |EmitNodes(ns)|;
    OccursSplit("(", EmitNodes(ns) + OpenNode(ps, ident, v), text, i);
    OccursHead("(", text, i);
    OccursSplit(EmitNodes(ns), OpenNode(ps, ident, v), text, i + 1);
    OpenNodeToEnd(text, j, ps, ident, v);
    NodesStart(text, i + 1, ns, j);
    assert WsEnd(text, i + 1) == i + 1;
    NodesReadOn(text, i + 1, [], ns, j);
    AppendNil(CollectAll(ns));
    assert WsEnd(text, |text|) == |text|;
    assert SequenceAt(text, j, CollectAll(ns)).1 == |text|;
    SequenceToEndFails(text, i);
  }

  /**
   * A record cut short inside a value of its last node (the value's '[' has
   * no later ']') fails with ExpectedClose at the end of the text.
   */
  lemma OpenValueFails(ns: seq<seq<Property>>, ps: seq<Property>, ident: string, v: string)
    requires WellFormedNodes(ns) && WellFormedNode(ps) && |ident| > 0 && AllLetters(ident) && ']' !in v
    ensures var text := EmitOpenValue(ns, ps, ident, v);
      ParsedSgf(text) == Err(ExpectedClose(|text|))
  {
    var text := EmitOpenValue(ns, ps, ident, v);
    OccursWhole(text);
    OpenTreeFails(text, 0, ns, ps, ident, v);
    DelimiterNotWs(text[0]);
    assert WsEnd(text, 0) == 0;
  }

  /**
   * A record cut short inside a value of a variation, after the tree's own
   * nodes and any complete variations, fails with ExpectedClose at the end
   * of the text: the open variation swallows the ')' of its parent too.
   */
  lemma VariationOpenValueFails(text: string, t: SourceTree, ns: seq<seq<Property>>, ps: seq<Property>, ident: string, v: string)
    requires WellFormedTree(t)
    requires WellFormedNodes(ns) && WellFormedNode(ps) && |ident| > 0 && AllLetters(ident) && ']' !in v
    requires text == "(" + (EmitNodes(t.nodes) + (EmitChildren(t, 0) + EmitOpenValue(ns, ps, ident, v)))
    ensures ParsedSgf(text) == Err(ExpectedClose(|text|))
  {
    var j := 1 + |EmitNodes(t.nodes)|;
    var e := j + |EmitChildren(t, 0)|;
    assert e + |EmitOpenValue(ns, ps, ident, v)| == |text|;
    OccursFour("(", EmitNodes(t.nodes), EmitChildren(t, 0), EmitOpenValue(ns, ps, ident, v), text, 1, j, e);
    VariationAt(text, t, ns, ps, ident, v, j, e);
  }

  /** The positions of VariationOpenValueFails: nodes from 1 to j, variations to e, the open variation to the end. */
  lemma VariationAt(text: string, t: SourceTree, ns: seq<seq<Property>>, ps: seq<Property>, ident: string, v: string, j: nat, e: nat)
    requires WellFormedTree(t)
    requires WellFormedNodes(ns) && WellFormedNode(ps) && |ident| > 0 && AllLetters(ident) && ']' !in v
    requires Occurs("(", text, 0)
    requires Occurs(EmitNodes(t.nodes), text, 1) && 1 + |EmitNodes(t.nodes)| == j
    requires Occurs(EmitChildren(t, 0), text, j) && j + |EmitChildren(t, 0)| == e
    requires Occurs(EmitOpenValue(ns, ps, ident, v), text, e) && e + |EmitOpenValue(ns, ps, ident, v)| == |text|
    ensures ParsedSgf(text) == Err(ExpectedClose(|text|))
  {
    OccursHead(EmitOpenValue(ns, ps, ident, v), text, e);
    OccursHead("(", text, 0);
    OpenTreeFails(text, e, ns, ps, ident, v);
    ParentReadsTo(text, t, j, e);
    VariationFailsAt(text, j, CollectAll(t.nodes), e, InterpretChildren(t, 0));
  }

  /** A tree's '(' at 0, its nodes from 1 to j and its variations from j to e, followed by '(' at e, are read up to e. */
  lemma ParentReadsTo(text: string, t: SourceTree, j: nat, e: nat)
    requires WellFormedTree(t) && IsAt(text, 0, '(') && IsAt(text, e, '(')
    requires Occurs(EmitNodes(t.nodes), text, 1) && 1 + |EmitNodes(t.nodes)| == j
    requires Occurs(EmitChildren(t, 0), text, j) && j + |EmitChildren(t, 0)| == e
    ensures 1 < |text| && !IsWs(text[1])
    ensures SequenceAt(text, 1, []) == (CollectAll(t.nodes), j)
    ensures ChildrenAt(text, j, []) == ChildrenAt(text, e, InterpretChildren(t, 0))
  {
    ChildrenStart(text, j, t, 0, e);
    NodesStart(text, 1, t.nodes, j);
    NodesReadBack(text, 1, [], t.nodes, j);
    AppendNil(CollectAll(t.nodes));
    ChildrenReadOn(text, j, [], t, 0, e);
    AppendNil(InterpretChildren(t, 0));
  }

  /** The tree at 0 fails once its variations are read up to e and the one at e fails at the end. */
  lemma VariationFailsAt(text: string, j: nat, sq: seq<PropertyBag>, e: nat, cs: seq<GameTree>)
    requires IsAt(text, 0, '(') && 1 < |text| && !IsWs(text[1])
    requires SequenceAt(text, 1, []) == (sq, j)
    requires ChildrenAt(text, j, []) == ChildrenAt(text, e, cs)
    requires IsAt(text, e, '(') && TreeAt(text, e) == Err(ExpectedClose(|text|))
    ensures ParsedSgf(text) == Err(ExpectedClose(|text|))
  {
    assert WsEnd(text, 1) == 1;
    assert TreeAt(text, 0) == Err(ExpectedClose(|text|));
    DelimiterNotWs(text[0]);
    assert WsEnd(text, 0) == 0;
  }

  /** An escaped ']' stays in the value; a backslash at the very end is dropped. */
  lemma EscapeExamples()
    ensures ValueAt("[a\\]b]", 0) == ("a]b", 6)
    ensures ValueAt("[ab\\", 0) == ("ab", 4)
  {
    var text := "[a\\]b]";
    assert "" + ['a'] == "a" && "a" + [']'] == "a]" && "a]" + ['b'] == "a]b";
    assert ValueBody(text, 1, "") == ValueBody(text, 2, "a");
    assert ValueBody(text, 2, "a") == ValueBody(text, 4, "a]");
    assert ValueBody(text, 4, "a]") == ValueBody(text, 5, "a]b");
    assert ValueBody(text, 5, "a]b") == ("a]b", 6);
    var tail := "[ab\\";
    assert "a" + ['b'] == "ab";
    assert ValueBody(tail, 1, "") == ValueBody(tail, 2, "a");
    assert ValueBody(tail, 2, "a") == ValueBody(tail, 3, "ab");
    assert ValueBody(tail, 3, "ab") == ("ab", 4);
  }

  /** One instance of OpenValueFails: the value of C runs to the end of the text and swallows the ')' of its tree. */
  lemma UnterminatedValueExample()
    ensures ParsedSgf("(;C[a)") == Err(ExpectedClose(6))
  {
    var text := "(;C[a)";
    assert "" + ['a'] == "a" && "a" + [')'] == "a)";
    assert ValueBody(text, 4, "") == ValueBody(text, 5, "a");
    assert ValueBody(text, 5, "a") == ValueBody(text, 6, "a)");
    assert ValueAt(text, 3).1 == 6;
    assert ValuesAt(text, 3, []).1 == 6;
    assert IdentEnd(text, 2) == 3;
    assert PropertyAt(text, 2, map[]).1 == 6;
    assert NodeAt(text, 2, map[]).1 == 6;
    assert SequenceAt(text, 1, []).1 == 6;
    assert ChildrenAt(text, 6, []) == Ok(([], 6));
    assert TreeAt(text, 0) == Err(ExpectedClose(6));
    assert TreesAt(text, 0, []) == Err(ExpectedClose(6));
  }
}
