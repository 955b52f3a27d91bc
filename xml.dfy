/**
 * The abstract XML tree the core consumes.  The XML library itself is not
 * part of this model: a document is a tree of nodes, an element has a tag,
 * ordered attributes, ordered children and a text content, and a comment is
 * either a plain comment or a commented-out element (one that `to_element`
 * can turn back into that element).
 */
module Xml {
  import opened Wrappers

  /** Attributes in document order; a lookup returns the first match. */
  type Attributes = seq<(string, string)>

  datatype Node =
    | Element(tag: string, attributes: Attributes, children: seq<Node>, content: string)
    | Comment(text: string)
    | CommentedElement(element: Node)
  {
    predicate IsComment() { !Element? }
  }

  /** The tag of an element; other nodes have none. */
  function Tag(n: Node): string {
    if n.Element? then n.tag else ""
  }

  /** The attributes of an element; other nodes have none. */
  function AttributesOf(n: Node): Attributes {
    if n.Element? then n.attributes else []
  }

  /** `to_element` of a comment: only a commented-out element converts. */
  function ToElement(n: Node): (r: Option<Node>)
    ensures r.Some? <==> n.CommentedElement?
  {
    match n
    case CommentedElement(e) => Some(e)
    case _ => None
  }

  /** `to_comment` of an element. */
  function ToComment(n: Node): (r: Node)
    ensures r.IsComment()
    ensures ToElement(r) == Some(n)
  {
    CommentedElement(n)
  }

  /** The non-comment children, in order (`iter_non_comment_childrens`). */
  function NonCommentChildren(n: Node): (r: seq<Node>)
    ensures forall c :: c in r ==> c.Element? && n.Element? && c in n.children
    ensures n.Element? ==> forall c :: c in n.children && c.Element? ==> c in r
  {
    if n.Element? then Elements(n.children) else []
  }

  function Elements(ns: seq<Node>): (r: seq<Node>)
    ensures forall c :: c in r ==> c.Element? && c in ns
    ensures forall c :: c in ns && c.Element? ==> c in r
    ensures |r| <= |ns|
  {
    if ns == [] then []
    else (if ns[0].Element? then [ns[0]] else []) + Elements(ns[1..])
  }

  /** Filtering a list that holds only elements keeps it whole. */
  lemma {:induction false} ElementsOfElements(ns: seq<Node>)
    requires forall i :: 0 <= i < |ns| ==> ns[i].Element?
    ensures Elements(ns) == ns
  {
    if ns != [] {
      ElementsOfElements(ns[1..]);
    }
  }

  /** `attributes.get(key)`: the value of the first attribute named `key`. */
  function Get(attrs: Attributes, key: string): (r: Option<string>)
    ensures r.Some? <==> exists i :: 0 <= i < |attrs| && attrs[i].0 == key
    ensures r.Some? ==> (key, r.value) in attrs
  {
    if attrs == [] then None
    else if attrs[0].0 == key then Some(attrs[0].1)
    else Get(attrs[1..], key)
  }

  /** The attribute map without any attribute named `key` (`dict.pop`). */
  function Remove(attrs: Attributes, key: string): (r: Attributes)
    ensures Get(r, key) == None
    ensures forall k :: k != key ==> Get(r, k) == Get(attrs, k)
    ensures forall a :: a in r ==> a in attrs
  {
    if attrs == [] then []
    else if attrs[0].0 == key then Remove(attrs[1..], key)
    else [attrs[0]] + Remove(attrs[1..], key)
  }

  /** A Python truthiness test on an optional string: present and non-empty. */
  predicate Truthy(s: Option<string>) {
    s.Some? && s.value != ""
  }

  /** ASCII lower-casing of one character. */
  function LowerChar(c: char): char {
    if 'A' <= c <= 'Z' then (c as int + 32) as char else c
  }

  /** `str.lower()`, restricted to ASCII letters. */
  function Lower(s: string): (r: string)
    ensures |r| == |s|
  {
    if s == [] then [] else [LowerChar(s[0])] + Lower(s[1..])
  }

  /** Lower-casing works character by character. */
  lemma {:induction false} LowerSpec(s: string)
    ensures forall i :: 0 <= i < |s| ==> Lower(s)[i] == LowerChar(s[i])
  {
    if s != [] {
      LowerSpec(s[1..]);
      assert forall i :: 1 <= i < |s| ==> Lower(s)[i] == Lower(s[1..])[i - 1];
    }
  }

  /** `get_attribute_ignore_case(key)`: the first attribute whose name matches ignoring case. */
  function GetIgnoreCase(attrs: Attributes, key: string): (r: Option<string>)
    ensures r.Some? <==> exists i :: 0 <= i < |attrs| && Lower(attrs[i].0) == Lower(key)
  {
    if attrs == [] then None
    else if Lower(attrs[0].0) == Lower(key) then Some(attrs[0].1)
    else GetIgnoreCase(attrs[1..], key)
  }

  /** The value found is that of the first attribute whose name matches ignoring case. */
  lemma {:induction false} GetIgnoreCaseFirst(attrs: Attributes, key: string, i: nat)
    requires i < |attrs| && Lower(attrs[i].0) == Lower(key)
    requires forall j :: 0 <= j < i ==> Lower(attrs[j].0) != Lower(key)
    ensures GetIgnoreCase(attrs, key) == Some(attrs[i].1)
  {
    if i > 0 {
      assert Lower(attrs[0].0) != Lower(key);
      assert forall j :: 0 <= j < i - 1 ==> attrs[1..][j] == attrs[j + 1];
      GetIgnoreCaseFirst(attrs[1..], key, i - 1);
    }
  }

  /** `str.startswith` and `in` on strings. */
  predicate StartsWith(s: string, prefix: string) {
    |prefix| <= |s| && s[..|prefix|] == prefix
  }

  predicate EndsWith(s: string, suffix: string) {
    |suffix| <= |s| && s[|s| - |suffix|..] == suffix
  }

  predicate Contains(s: string, part: string) {
    StartsWith(s, part) || (s != [] && Contains(s[1..], part))
  }

  /** Every element of the tree rooted at `n` with tag `tag`, in document order (`find_only_elements`). */
  function FindElements(n: Node, tag: string): (r: seq<Node>)
    ensures forall e :: e in r ==> e.Element? && e.tag == tag
    decreases n, 1
  {
    match n
    case Element(t, _, cs, _) => (if t == tag then [n] else []) + FindElementsIn(cs, tag)
    case _ => []
  }

  function FindElementsIn(ns: seq<Node>, tag: string): (r: seq<Node>)
    ensures forall e :: e in r ==> e.Element? && e.tag == tag
    decreases ns, 0
  {
    if ns == [] then [] else FindElements(ns[0], tag) + FindElementsIn(ns[1..], tag)
  }

  /** Every node of the tree rooted at `n`, in document order: the node, then its children's trees. */
  function Preorder(n: Node): seq<Node>
    decreases n, 1
  {
    match n
    case Element(_, _, cs, _) => [n] + PreorderIn(cs)
    case _ => [n]
  }

  function PreorderIn(ns: seq<Node>): seq<Node>
    decreases ns, 0
  {
    if ns == [] then [] else Preorder(ns[0]) + PreorderIn(ns[1..])
  }

  /** The elements of `ns` with tag `tag`, in their order. */
  function WithTag(ns: seq<Node>, tag: string): (r: seq<Node>)
    ensures forall e :: e in r <==> e in ns && e.Element? && e.tag == tag
  {
    if ns == [] then []
    else (if ns[0].Element? && ns[0].tag == tag then [ns[0]] else []) + WithTag(ns[1..], tag)
  }

  lemma {:induction false} WithTagAppend(a: seq<Node>, b: seq<Node>, tag: string)
    ensures WithTag(a + b, tag) == WithTag(a, tag) + WithTag(b, tag)
  {
    if a == [] {
      assert a + b == b;
    } else {
      assert (a + b)[0] == a[0];
      assert (a + b)[1..] == a[1..] + b;
      WithTagAppend(a[1..], b, tag);
    }
  }

  /**
   * `find_only_elements` is complete: it yields exactly the elements of the
   * tree with that tag, each in its document position.
   */
  lemma {:induction false} FindElementsComplete(n: Node, tag: string)
    ensures FindElements(n, tag) == WithTag(Preorder(n), tag)
    decreases n, 1
  {
    match n
    case Element(t, _, cs, _) =>
      FindElementsInComplete(cs, tag);
      WithTagAppend([n], PreorderIn(cs), tag);
    case _ =>
  }

  lemma {:induction false} FindElementsInComplete(ns: seq<Node>, tag: string)
    ensures FindElementsIn(ns, tag) == WithTag(PreorderIn(ns), tag)
    decreases ns, 0
  {
    if ns != [] {
      FindElementsComplete(ns[0], tag);
      FindElementsInComplete(ns[1..], tag);
      WithTagAppend(Preorder(ns[0]), PreorderIn(ns[1..]), tag);
    }
  }

  /** The text of every plain comment in the tree rooted at `n`, in document order. */
  function CommentTexts(n: Node): seq<string>
    decreases n, 1
  {
    match n
    case Element(_, _, cs, _) => CommentTextsIn(cs)
    case Comment(t) => [t]
    case CommentedElement(_) => []
  }

  function CommentTextsIn(ns: seq<Node>): seq<string>
    decreases ns, 0
  {
    if ns == [] then [] else CommentTexts(ns[0]) + CommentTextsIn(ns[1..])
  }

  // ----- str.strip() and str.splitlines() -----

  /** Whitespace as `str.strip()` sees it, restricted to the ASCII range. */
  predicate IsSpace(c: char) {
    c == ' ' || '\t' <= c <= '\r' || '\U{001c}' <= c <= '\U{001f}'
  }

  /** Line boundaries as `str.splitlines()` sees them (`\r\n` counts as one). */
  predicate IsLineBreak(c: char) {
    c == '\n' || c == '\r' || c == '\U{000b}' || c == '\U{000c}' || '\U{001c}' <= c <= '\U{001e}'
    || c == '\U{0085}' || c == '\U{2028}' || c == '\U{2029}'
  }

  function StripLeft(s: string): (r: string)
  {
    if s != [] && IsSpace(s[0]) then StripLeft(s[1..]) else s
  }

  function StripRight(s: string): (r: string)
  {
    if s != [] && IsSpace(s[|s| - 1]) then StripRight(s[..|s| - 1]) else s
  }

  /** `str.strip()`: no leading or trailing whitespace, and unchanged inside. */
  function Strip(s: string): (r: string)
  {
    StripRight(StripLeft(s))
  }

  /** `lstrip` removes a run of leading whitespace and nothing else. */
  lemma {:induction false} StripLeftSpec(s: string)
    ensures var r := StripLeft(s);
      && (r == [] || !IsSpace(r[0]))
      && |r| <= |s| && r == s[|s| - |r|..]
      && forall i :: 0 <= i < |s| - |r| ==> IsSpace(s[i])
    decreases |s|
  {
    if s != [] && IsSpace(s[0]) {
      StripLeftSpec(s[1..]);
      var r := StripLeft(s[1..]);
      assert s[1..][|s| - 1 - |r|..] == s[|s| - |r|..];
      forall i | 0 <= i < |s| - |r| ensures IsSpace(s[i]) {
        if i > 0 { assert s[i] == s[1..][i - 1]; }
      }
    }
  }

  /** `rstrip` removes a run of trailing whitespace and nothing else. */
  lemma {:induction false} StripRightSpec(s: string)
    ensures var r := StripRight(s);
      && (r == [] || !IsSpace(r[|r| - 1]))
      && |r| <= |s| && r == s[..|r|]
      && forall i :: |r| <= i < |s| ==> IsSpace(s[i])
    decreases |s|
  {
    if s != [] && IsSpace(s[|s| - 1]) {
      StripRightSpec(s[..|s| - 1]);
      var r := StripRight(s[..|s| - 1]);
      assert s[..|s| - 1][..|r|] == s[..|r|];
      forall i | |r| <= i < |s| ensures IsSpace(s[i]) {
        if i < |s| - 1 { assert s[i] == s[..|s| - 1][i]; }
      }
    }
  }

  /**
   * `strip` leaves a slice of its input that neither starts nor ends with
   * whitespace, and what it drops on either side is whitespace only.
   */
  lemma StripSpec(s: string)
    ensures var r := Strip(s);
      && (r == [] || (!IsSpace(r[0]) && !IsSpace(r[|r| - 1])))
      && var k := |s| - |StripLeft(s)|;
         && 0 <= k <= |s| - |r| && r == s[k..k + |r|]
         && (forall i :: 0 <= i < k ==> IsSpace(s[i]))
         && (forall i :: k + |r| <= i < |s| ==> IsSpace(s[i]))
  {
    var l := StripLeft(s);
    StripLeftSpec(s);
    StripRightSpec(l);
    var r := StripRight(l);
    var k := |s| - |l|;
    assert l == s[k..];
    assert r == l[..|r|];
    assert s[k..][..|r|] == s[k..k + |r|];
    forall i | k + |r| <= i < |s| ensures IsSpace(s[i]) {
      assert s[i] == l[i - k];
    }
  }

  /** Where the line starting at `i` ends: the first line break from `i` on, or the end of `s`. */
  function LineEnd(s: string, i: nat): (j: nat)
    requires i <= |s|
    ensures i <= j <= |s|
    decreases |s| - i
  {
    if i == |s| || IsLineBreak(s[i]) then i else LineEnd(s, i + 1)
  }

  /** Nothing between `i` and the line's end is a line break, and a line that ends early ends at one. */
  lemma {:induction false} LineEndSpec(s: string, i: nat)
    requires i <= |s|
    ensures forall k :: i <= k < LineEnd(s, i) ==> !IsLineBreak(s[k])
    ensures LineEnd(s, i) < |s| ==> IsLineBreak(s[LineEnd(s, i)])
    decreases |s| - i
  {
    if i < |s| && !IsLineBreak(s[i]) {
      LineEndSpec(s, i + 1);
    }
  }

  /** The lines of `s` from position `i` on, each without its terminator. */
  function SplitFrom(s: string, i: nat): (r: seq<string>)
    requires i <= |s|
    decreases |s| - i
  {
    if i == |s| then []
    else
      var j := LineEnd(s, i);
      if j == |s| then [s[i..j]]
      else if s[j] == '\r' && j + 1 < |s| && s[j + 1] == '\n' then [s[i..j]] + SplitFrom(s, j + 2)
      else [s[i..j]] + SplitFrom(s, j + 1)
  }

  /** `str.splitlines()`: the lines of `s` without their terminators. */
  function SplitLines(s: string): (r: seq<string>)
  {
    SplitFrom(s, 0)
  }

  /** `line` holds no line break. */
  predicate NoBreaks(line: string) {
    forall k :: 0 <= k < |line| ==> !IsLineBreak(line[k])
  }

  /** Where the next line starts after a line ending at `j`: past `\r\n`, or past one break. */
  function NextLine(s: string, j: nat): nat
    requires j < |s|
  {
    if s[j] == '\r' && j + 1 < |s| && s[j + 1] == '\n' then j + 2 else j + 1
  }

  /** A line ended by a break is split off on its own. */
  lemma SplitFromBreak(s: string, i: nat)
    requires i < |s| && LineEnd(s, i) < |s|
    ensures NextLine(s, LineEnd(s, i)) <= |s|
    ensures SplitFrom(s, i) == [s[i..LineEnd(s, i)]] + SplitFrom(s, NextLine(s, LineEnd(s, i)))
  {
    var j := LineEnd(s, i);
    if s[j] == '\r' && j + 1 < |s| && s[j + 1] == '\n' {
      assert NextLine(s, j) == j + 2;
    } else {
      assert NextLine(s, j) == j + 1;
    }
  }

  /** The line from `i` holds no line break. */
  lemma LineNoBreaks(s: string, i: nat)
    requires i <= |s|
    ensures NoBreaks(s[i..LineEnd(s, i)])
  {
    LineEndSpec(s, i);
    var line := s[i..LineEnd(s, i)];
    forall k | 0 <= k < |line| ensures !IsLineBreak(line[k]) {
      assert line[k] == s[i + k];
    }
  }

  /** No line holds a line break, and there are lines exactly when there is text. */
  lemma {:induction false} SplitFromSpec(s: string, i: nat)
    requires i <= |s|
    ensures forall line :: line in SplitFrom(s, i) ==> NoBreaks(line)
    ensures i == |s| <==> SplitFrom(s, i) == []
    decreases |s| - i
  {
    if i < |s| {
      var j := LineEnd(s, i);
      LineNoBreaks(s, i);
      if j < |s| {
        SplitFromBreak(s, i);
        SplitFromSpec(s, NextLine(s, j));
      }
    }
  }

  lemma SplitLinesSpec(s: string)
    ensures forall line :: line in SplitLines(s) ==> NoBreaks(line)
    ensures s == [] <==> SplitLines(s) == []
  {
    SplitFromSpec(s, 0);
  }

  /** Lines joined back with `\n`. */
  function JoinLines(lines: seq<string>): string {
    if lines == [] then []
    else if |lines| == 1 then lines[0]
    else lines[0] + "\n" + JoinLines(lines[1..])
  }

  lemma JoinCons(line: string, rest: seq<string>)
    requires rest != []
    ensures JoinLines([line] + rest) == line + "\n" + JoinLines(rest)
  {
    assert ([line] + rest)[1..] == rest;
  }

  /** Splitting `s` from `i` on and re-joining gives back `s[i..]`, when `\n` is the only line break and `s` does not end with one. */
  lemma {:induction false} SplitFromJoin(s: string, i: nat)
    requires i <= |s|
    requires forall k :: 0 <= k < |s| ==> IsLineBreak(s[k]) ==> s[k] == '\n'
    requires s == [] || s[|s| - 1] != '\n'
    ensures JoinLines(SplitFrom(s, i)) == s[i..]
    decreases |s| - i
  {
    if i < |s| {
      var j := LineEnd(s, i);
      LineEndSpec(s, i);
      if j < |s| {
        assert s[j] == '\n';
        SplitFromJoin(s, j + 1);
        SplitFromSpec(s, j + 1);
        SplitFromBreak(s, i);
        JoinCons(s[i..j], SplitFrom(s, j + 1));
        assert s[i..] == s[i..j] + "\n" + s[j + 1..];
      }
    }
  }

  /**
   * Splitting and re-joining is the identity on text whose only line breaks
   * are `\n` and that does not end with one.
   */
  lemma SplitLinesJoin(s: string)
    requires forall i :: 0 <= i < |s| ==> IsLineBreak(s[i]) ==> s[i] == '\n'
    requires s == [] || s[|s| - 1] != '\n'
    ensures JoinLines(SplitLines(s)) == s
  {
    SplitFromJoin(s, 0);
  }
}
