/**
 * The markup-balance check and the toolbar's tag insertion of the comment form
 * (`validateHTML` and `insertTag` in src/components/CommentForm.tsx).
 *
 * The scanner is the case-insensitive global pattern `<\/?([a-z]+)[^>]*>`: from a
 * `<`, an optional `/`, the longest run of ASCII letters (the tag name, in the case
 * in which it was written), then everything up to the first following `>`.
 */
module Markup {
  import opened Wrappers
  import Strings

  predicate IsLetter(c: char) {
    'a' <= c <= 'z' || 'A' <= c <= 'Z'
  }

  /** The end of the run of letters that starts at `i`. */
  function LetterRunEnd(s: string, i: nat): (k: nat)
    requires i <= |s|
    ensures i <= k <= |s|
    ensures k < |s| ==> !IsLetter(s[k])
    decreases |s| - i
  {
    if i < |s| && IsLetter(s[i]) then LetterRunEnd(s, i + 1) else i
  }

  /** Every character of the run is a letter. */
  lemma {:induction false} LetterRunEndLetters(s: string, i: nat)
    requires i <= |s|
    ensures forall j :: i <= j < LetterRunEnd(s, i) ==> IsLetter(s[j])
    decreases |s| - i
  {
    if i < |s| && IsLetter(s[i]) {
      LetterRunEndLetters(s, i + 1);
    }
  }

  /** The position of the first `>` at or after `i`, if any. */
  function FindClose(s: string, i: nat): (r: Option<nat>)
    requires i <= |s|
    ensures r.Some? ==> i <= r.value < |s| && s[r.value] == '>'
    decreases |s| - i
  {
    if i == |s| then None
    else if s[i] == '>' then Some(i)
    else FindClose(s, i + 1)
  }

  /** No `>` is skipped. */
  lemma {:induction false} FindCloseFirst(s: string, i: nat)
    requires i <= |s|
    ensures var r := FindClose(s, i);
            forall j :: i <= j < (if r.Some? then r.value else |s|) ==> s[j] != '>'
    decreases |s| - i
  {
    if i < |s| && s[i] != '>' {
      FindCloseFirst(s, i + 1);
    }
  }

  /** One match of the pattern: the full match is `s[start..end]`, the captured name is `name`. */
  datatype Match = Match(start: nat, end: nat, name: string)

  /** The match of the pattern that starts exactly at `p`, if there is one. */
  function MatchAt(s: string, p: nat): (r: Option<Match>)
    requires p < |s|
    ensures r.Some? ==> r.value.start == p && p + 2 < r.value.end <= |s| && s[p] == '<' && s[r.value.end - 1] == '>'
  {
    if s[p] != '<' then None
    else MatchName(s, p, if p + 1 < |s| && s[p + 1] == '/' then p + 2 else p + 1)
  }

  /** The rest of a match from `<` at `p`, the name starting at `q`: a non-empty run of letters, then up to the first `>`. */
  function MatchName(s: string, p: nat, q: nat): (r: Option<Match>)
    requires q <= |s|
    ensures r.Some? ==> r.value.start == p && q + 1 < r.value.end <= |s| && s[r.value.end - 1] == '>'
  {
    var k := LetterRunEnd(s, q);
    if k == q then None
    else
      match FindClose(s, k)
      case None => None
      case Some(g) => Some(Match(p, g + 1, s[q..k]))
  }

  /** `tagPattern.exec(s)` with `lastIndex == from`: the leftmost match at or after `from`. */
  function NextMatch(s: string, from: nat): (r: Option<Match>)
    requires from <= |s|
    ensures r.Some? ==> from <= r.value.start && r.value.start + 2 < r.value.end <= |s|
    decreases |s| - from
  {
    if from == |s| then None
    else if MatchAt(s, from).Some? then MatchAt(s, from)
    else NextMatch(s, from + 1)
  }

  /** The match found is a match of the pattern, and the leftmost one. */
  lemma {:induction false} NextMatchLeftmost(s: string, from: nat)
    requires from <= |s|
    ensures var r := NextMatch(s, from);
            r.Some? ==> r.value.start < |s| && MatchAt(s, r.value.start) == r
    ensures var r := NextMatch(s, from);
            forall p :: from <= p < (if r.Some? then r.value.start else |s|) ==> MatchAt(s, p).None?
    decreases |s| - from
  {
    if from < |s| && MatchAt(s, from).None? {
      NextMatchLeftmost(s, from + 1);
    }
  }

  /** What `validateHTML` looks at in a match: the name and the two textual tests on the full match. */
  datatype Tag = Tag(name: string, closing: bool, selfClosing: bool)

  /**
   * The tag a match denotes. A match starts with `<` and ends with `>`, so its
   * second character tells whether it starts with `</` and its second-to-last one
   * whether it ends with `/>` (see `TagOfTests`).
   */
  function TagOf(s: string, m: Match): (t: Tag)
    requires m.start + 2 < m.end <= |s|
  {
    Tag(m.name, s[m.start + 1] == '/', s[m.end - 2] == '/')
  }

  /** `fullTag.startsWith('</')` and `fullTag.endsWith('/>')` on the full match. */
  lemma TagOfTests(s: string, m: Match)
    requires m.start < |s| && MatchAt(s, m.start) == Some(m)
    ensures var full := s[m.start..m.end];
            && TagOf(s, m).closing == ("</" <= full)
            && TagOf(s, m).selfClosing == (full[|full| - 2..] == "/>")
  {
    var full := s[m.start..m.end];
    assert full[0] == '<' && full[1] == s[m.start + 1];
    assert full[|full| - 1] == '>' && full[|full| - 2] == s[m.end - 2];
    assert full[..2] == [full[0], full[1]];
    assert full[|full| - 2..] == [full[|full| - 2], full[|full| - 1]];
  }

  /** The tags the scanner meets from `from` on, in order. */
  function Tags(s: string, from: nat): seq<Tag>
    requires from <= |s|
    decreases |s| - from
  {
    match NextMatch(s, from)
    case None => []
    case Some(m) => [TagOf(s, m)] + Tags(s, m.end)
  }

  /**
   * The stack discipline of `validateHTML`, with the stack's top at the end:
   * a closing tag pops and must equal the popped name (popping an empty stack
   * fails), a self-closing tag is skipped, any other tag is pushed; the scan
   * succeeds iff the stack ends empty.
   */
  function Check(tags: seq<Tag>, stack: seq<string>): bool {
    if tags == [] then stack == []
    else
      var t := tags[0];
      if t.closing then
        stack != [] && stack[|stack| - 1] == t.name && Check(tags[1..], stack[..|stack| - 1])
      else if !t.selfClosing then Check(tags[1..], stack + [t.name])
      else Check(tags[1..], stack)
  }

  /** `validateHTML(input)`, stated over the scanned tags. */
  function Balanced(input: string): bool {
    Check(Tags(input, 0), [])
  }

  /** `validateHTML`: runs the scanner, pushing and popping tag names on `tagStack`. */
  method ValidateHtml(input: string) returns (ok: bool)
    ensures ok == Balanced(input)
  {
    var tagStack: seq<string> := [];
    var lastIndex: nat := 0;
    while true
      invariant lastIndex <= |input|
      invariant Check(Tags(input, lastIndex), tagStack) == Balanced(input)
      decreases |input| - lastIndex
    {
      var found := NextMatch(input, lastIndex);
      if found.None? {
        break;
      }
      var m := found.value;
      NextMatchLeftmost(input, lastIndex);
      var fullTag := input[m.start..m.end];
      var closing := "</" <= fullTag;
      var selfClosing := fullTag[|fullTag| - 2..] == "/>";
      TagOfTests(input, m);
      var tag := Tag(m.name, closing, selfClosing);
      assert tag == TagOf(input, m);
      if tag.closing {
        if tagStack == [] || tagStack[|tagStack| - 1] != tag.name {
          return false;
        }
        tagStack := tagStack[..|tagStack| - 1];
      } else if !tag.selfClosing {
        tagStack := tagStack + [tag.name];
      }
      lastIndex := m.end;
    }
    ok := |tagStack| == 0;
  }

  // A reference for what the stack discipline accepts: tags that nest as a forest.

  /** A forest of markup: an element has an opening tag, children and (when the input has one) a closing tag. */
  datatype Node = Element(open: Tag, children: seq<Node>, close: Option<Tag>) | Void(tag: Tag)

  function Flatten(f: seq<Node>): seq<Tag>
    decreases f
  {
    if f == [] then [] else FlattenNode(f[0]) + Flatten(f[1..])
  }

  function FlattenNode(n: Node): seq<Tag>
    decreases n
  {
    match n
    case Void(t) => [t]
    case Element(o, ch, c) => [o] + Flatten(ch) + (if c.Some? then [c.value] else [])
  }

  /**
   * Every element is opened by a pushing tag and closed by a closing tag of the same
   * name; every leaf is a self-closing, non-closing tag.
   */
  predicate WellNested(f: seq<Node>)
    decreases f
  {
    f == [] || (NodeWellNested(f[0]) && WellNested(f[1..]))
  }

  predicate NodeWellNested(n: Node)
    decreases n
  {
    match n
    case Void(t) => !t.closing && t.selfClosing
    case Element(o, ch, c) =>
      && !o.closing && !o.selfClosing
      && c.Some? && c.value.closing && c.value.name == o.name
      && WellNested(ch)
  }

  /**
   * Reads a forest off the front of `tags`, stopping at the first closing tag that
   * closes nothing read here (or at the end). Names are not compared.
   */
  function Parse(tags: seq<Tag>): (r: (seq<Node>, seq<Tag>))
    ensures Flatten(r.0) + r.1 == tags
    ensures r.1 == [] || r.1[0].closing
    decreases |tags|
  {
    if tags == [] || tags[0].closing then ([], tags)
    else
      var (ch, rest1) := Parse(tags[1..]);
      if tags[0].selfClosing then
        ParseVoid(tags, ch, rest1);
        ([Void(tags[0])] + ch, rest1)
      else if rest1 == [] then
        ParseUnclosed(tags, ch);
        ([Element(tags[0], ch, None)], [])
      else
        var (f2, rest2) := Parse(rest1[1..]);
        ParseElement(tags, ch, rest1, f2, rest2);
        ([Element(tags[0], ch, Some(rest1[0]))] + f2, rest2)
  }

  lemma FlattenCons(n: Node, f: seq<Node>)
    ensures Flatten([n] + f) == FlattenNode(n) + Flatten(f)
  {
    assert ([n] + f)[1..] == f;
  }

  lemma ParseVoid(tags: seq<Tag>, ch: seq<Node>, rest1: seq<Tag>)
    requires tags != [] && Flatten(ch) + rest1 == tags[1..]
    ensures Flatten([Void(tags[0])] + ch) + rest1 == tags
  {
    FlattenCons(Void(tags[0]), ch);
    assert tags == [tags[0]] + tags[1..];
  }

  lemma ParseUnclosed(tags: seq<Tag>, ch: seq<Node>)
    requires tags != [] && Flatten(ch) == tags[1..]
    ensures Flatten([Element(tags[0], ch, None)]) == tags
  {
    FlattenCons(Element(tags[0], ch, None), []);
    assert tags == [tags[0]] + tags[1..];
  }

  lemma ParseElement(tags: seq<Tag>, ch: seq<Node>, rest1: seq<Tag>, f2: seq<Node>, rest2: seq<Tag>)
    requires tags != [] && Flatten(ch) + rest1 == tags[1..]
    requires rest1 != [] && Flatten(f2) + rest2 == rest1[1..]
    ensures Flatten([Element(tags[0], ch, Some(rest1[0]))] + f2) + rest2 == tags
  {
    FlattenCons(Element(tags[0], ch, Some(rest1[0])), f2);
    assert tags == [tags[0]] + tags[1..];
    assert rest1 == [rest1[0]] + rest1[1..];
  }

  lemma WellNestedCons(n: Node, f: seq<Node>)
    ensures WellNested([n] + f) == (NodeWellNested(n) && WellNested(f))
  {
    assert ([n] + f)[1..] == f;
  }

  /** Checking a parsed prefix is checking its nesting, then going on with the same stack. */
  lemma {:induction false} CheckParse(tags: seq<Tag>, stack: seq<string>)
    ensures Check(tags, stack) == (WellNested(Parse(tags).0) && Check(Parse(tags).1, stack))
    decreases |tags|
  {
    if tags == [] || tags[0].closing {
    } else {
      var (ch, rest1) := Parse(tags[1..]);
      if tags[0].selfClosing {
        CheckParse(tags[1..], stack);
        WellNestedCons(Void(tags[0]), ch);
      } else {
        CheckParse(tags[1..], stack + [tags[0].name]);
        if rest1 != [] {
          CheckParseElement(tags, stack, ch, rest1);
        } else {
          WellNestedCons(Element(tags[0], ch, None), []);
        }
      }
    }
  }

  lemma {:induction false} CheckParseElement(tags: seq<Tag>, stack: seq<string>, ch: seq<Node>, rest1: seq<Tag>)
    requires tags != [] && !tags[0].closing && !tags[0].selfClosing
    requires (ch, rest1) == Parse(tags[1..]) && rest1 != []
    requires Check(tags[1..], stack + [tags[0].name]) == (WellNested(ch) && Check(rest1, stack + [tags[0].name]))
    ensures Check(tags, stack) == (WellNested(Parse(tags).0) && Check(Parse(tags).1, stack))
    decreases |tags|, 0
  {
    var (f2, rest2) := Parse(rest1[1..]);
    var n := tags[0].name;
    var e := Element(tags[0], ch, Some(rest1[0]));
    assert Parse(tags) == ([e] + f2, rest2);
    assert Check(tags, stack) == Check(tags[1..], stack + [n]);
    assert (stack + [n])[..|stack|] == stack;
    assert Check(rest1, stack + [n]) == (n == rest1[0].name && Check(rest1[1..], stack));
    CheckParse(rest1[1..], stack);
    WellNestedCons(e, f2);
  }

  lemma {:induction false} CheckFlatten(f: seq<Node>, rest: seq<Tag>, stack: seq<string>)
    requires WellNested(f)
    ensures Check(Flatten(f) + rest, stack) == Check(rest, stack)
    decreases f
  {
    if f != [] {
      var tail := Flatten(f[1..]) + rest;
      assert Flatten(f) + rest == FlattenNode(f[0]) + tail;
      CheckFlattenNode(f[0], tail, stack);
      CheckFlatten(f[1..], rest, stack);
    } else {
      assert Flatten(f) + rest == rest;
    }
  }

  lemma {:induction false} CheckFlattenNode(n: Node, rest: seq<Tag>, stack: seq<string>)
    requires NodeWellNested(n)
    ensures Check(FlattenNode(n) + rest, stack) == Check(rest, stack)
    decreases n
  {
    match n
    case Void(t) =>
      assert ([t] + rest)[1..] == rest;
    case Element(o, ch, c) =>
      var inner := Flatten(ch) + ([c.value] + rest);
      assert FlattenNode(n) + rest == [o] + inner;
      assert ([o] + inner)[1..] == inner;
      CheckFlatten(ch, [c.value] + rest, stack + [o.name]);
      assert ([c.value] + rest)[1..] == rest;
      assert (stack + [o.name])[..|stack|] == stack;
  }

  /**
   * The stack discipline accepts exactly the tag sequences that are the flattening of a
   * well-nested forest: each closing tag closes the innermost open element, with the same
   * name (compared case-sensitively), and nothing is left open.
   */
  lemma BalancedIffWellNested(input: string)
    ensures Balanced(input) <==> exists f :: WellNested(f) && Flatten(f) == Tags(input, 0)
  {
    var tags := Tags(input, 0);
    if Balanced(input) {
      CheckParse(tags, []);
      var (f, rest) := Parse(tags);
      assert rest == [];
      assert Flatten(f) + [] == Flatten(f);
      assert WellNested(f) && Flatten(f) == tags;
    }
    forall f | WellNested(f) && Flatten(f) == tags ensures Balanced(input) {
      CheckFlatten(f, [], []);
      assert Flatten(f) + [] == Flatten(f);
    }
  }

  // The toolbar's tag insertion.

  /**
   * The textarea's selection, `selectionStart` and `selectionEnd`, counted in UTF-16
   * code units as the browser counts them.
   */
  datatype Selection = Selection(start: nat, end: nat)

  /** The selection that covers characters `from` to `to` of `content`. */
  function CharSelection(content: string, from: nat, to: nat): Selection
    requires from <= to <= |content|
  {
    Selection(Strings.UnitOffset(content, from), Strings.UnitOffset(content, to))
  }

  /** `s.slice(from, to)` for non-negative bounds: both are clamped to the length, and an empty range gives "". */
  function Slice(s: string, from: nat, to: nat): (r: string)
    ensures from <= to <= |s| ==> r == s[from..to]
  {
    var a := if from < |s| then from else |s|;
    var b := if to < |s| then to else |s|;
    if b <= a then "" else s[a..b]
  }

  function OpenTag(tag: string, attribute: string): string {
    "<" + tag + attribute + ">"
  }

  function CloseTag(tag: string): string {
    "</" + tag + ">"
  }

  /**
   * `insertTag(tag, attribute)`: wraps the selected text in an opening and a closing tag.
   * Without a textarea (`selection == None`) the content is left as it is. The selection's
   * code-unit offsets are read as character positions by `Strings.CharOffset`, which
   * clamps an offset past the end to the end.
   */
  function InsertTag(content: string, selection: Option<Selection>, tag: string, attribute: string): (r: string)
    ensures selection.None? ==> r == content
    ensures selection.Some? ==> |r| >= |content| + |OpenTag(tag, attribute)| + |CloseTag(tag)|
  {
    match selection
    case None => content
    case Some(Selection(start, end)) =>
      WrapAt(content, Strings.CharOffset(content, start), Strings.CharOffset(content, end), tag, attribute)
  }

  /** The wrapping itself, at the character positions `a` and `b`. */
  function WrapAt(content: string, a: nat, b: nat, tag: string, attribute: string): string {
    var selectedText := Slice(content, a, b);
    var newText := OpenTag(tag, attribute) + selectedText + CloseTag(tag);
    Slice(content, 0, a) + newText + Slice(content, b, |content|)
  }

  /** Wrapping between two positions in order: the five pieces one after the other. */
  lemma WrapAtInOrder(content: string, a: nat, b: nat, tag: string, attribute: string)
    requires a <= b <= |content|
    ensures WrapAt(content, a, b, tag, attribute)
         == content[..a] + OpenTag(tag, attribute) + content[a..b] + CloseTag(tag) + content[b..]
  {
    assert Slice(content, 0, a) == content[..a];
    assert Slice(content, b, |content|) == content[b..];
  }

  /**
   * For any selection, in range or not: the text up to the start, the opening tag, the
   * text between start and end (none when the end comes first), the closing tag and the
   * text from the end on.
   */
  lemma InsertTagClamped(content: string, selection: Selection, tag: string, attribute: string)
    ensures var a := Strings.CharOffset(content, selection.start);
            var b := Strings.CharOffset(content, selection.end);
            InsertTag(content, Some(selection), tag, attribute)
              == content[..a] + (OpenTag(tag, attribute) + (if a <= b then content[a..b] else "") + CloseTag(tag))
                 + content[b..]
  {
    var a := Strings.CharOffset(content, selection.start);
    var b := Strings.CharOffset(content, selection.end);
    assert InsertTag(content, Some(selection), tag, attribute) == WrapAt(content, a, b, tag, attribute);
    WrapAtAnyOrder(content, a, b, tag, attribute);
  }

  /** Wrapping between any two positions within the content. */
  lemma WrapAtAnyOrder(content: string, a: nat, b: nat, tag: string, attribute: string)
    requires a <= |content| && b <= |content|
    ensures WrapAt(content, a, b, tag, attribute)
         == content[..a] + (OpenTag(tag, attribute) + (if a <= b then content[a..b] else "") + CloseTag(tag))
            + content[b..]
  {
    assert Slice(content, 0, a) == content[..a];
    assert Slice(content, a, b) == (if a <= b then content[a..b] else "");
    assert Slice(content, b, |content|) == content[b..];
  }

  /** A selection given by its character positions covers exactly those characters. */
  lemma InsertTagChars(content: string, from: nat, to: nat, tag: string, attribute: string)
    requires from <= to <= |content|
    ensures InsertTag(content, Some(CharSelection(content, from, to)), tag, attribute)
         == content[..from] + OpenTag(tag, attribute) + content[from..to] + CloseTag(tag) + content[to..]
  {
    var sel := CharSelection(content, from, to);
    Strings.CharOffsetAtBoundary(content, from);
    Strings.CharOffsetAtBoundary(content, to);
    assert InsertTag(content, Some(sel), tag, attribute) == WrapAt(content, from, to, tag, attribute);
    WrapAtInOrder(content, from, to, tag, attribute);
  }

  /**
   * The offsets count code units: after an emoji (two units), the selection 2 to 4 of
   * "😀ab" is "ab".
   */
  lemma SelectionAfterAstral()
    ensures InsertTag("\U{1F600}ab", Some(Selection(2, 4)), "i", "") == "\U{1F600}<i>ab</i>"
  {
    var s := "\U{1F600}ab";
    assert Strings.Units(s[0]) == [0xD83D, 0xDE00];
    assert Strings.CharOffset(s, 2) == 1 + Strings.CharOffset(s[1..], 0);
    assert Strings.CharOffset(s, 4) == 1 + Strings.CharOffset(s[1..], 2);
    assert s[1..][1..] == "b";
    assert Strings.CharOffset(s[1..], 2) == 2;
  }

  /**
   * With a selection inside the content, the text before, inside and after the selection
   * is kept in place, with the opening tag before the selected text and the closing tag after it.
   */
  lemma InsertTagLayout(content: string, start: nat, end: nat, tag: string, attribute: string)
    requires start <= end <= |content|
    ensures var r := InsertTag(content, Some(CharSelection(content, start, end)), tag, attribute);
            var o, c := |OpenTag(tag, attribute)|, |CloseTag(tag)|;
            && |r| == |content| + o + c
            && r[..start] == content[..start]
            && r[start..start + o] == OpenTag(tag, attribute)
            && r[start + o..end + o] == content[start..end]
            && r[end + o..end + o + c] == CloseTag(tag)
            && r[end + o + c..] == content[end..]
  {
    var r := InsertTag(content, Some(CharSelection(content, start, end)), tag, attribute);
    InsertTagChars(content, start, end, tag, attribute);
    var before, inside, after := content[..start], content[start..end], content[end..];
    assert r == before + OpenTag(tag, attribute) + inside + CloseTag(tag) + after;
    FiveParts(before, OpenTag(tag, attribute), inside, CloseTag(tag), after);
  }

  /** The pieces of a concatenation of five texts sit one after the other. */
  lemma FiveParts(a: string, b: string, c: string, e: string, f: string)
    ensures var r, i, j, k, l := a + b + c + e + f, |a|, |a| + |b|, |a| + |b| + |c|, |a| + |b| + |c| + |e|;
            && |r| == l + |f|
            && r[..i] == a && r[i..j] == b && r[j..k] == c && r[k..l] == e && r[l..] == f
  {
    var ab := a + b;
    var abc := ab + c;
    var abce := abc + e;
    assert abce[..|abc|] == abc && abce[|abc|..] == e;
    assert abc[..|ab|] == ab && abc[|ab|..] == c;
    assert ab[..|a|] == a && ab[|a|..] == b;
  }

  /** Deleting the two inserted tags gives the content back. */
  lemma InsertTagInverse(content: string, start: nat, end: nat, tag: string, attribute: string)
    requires start <= end <= |content|
    ensures var r := InsertTag(content, Some(CharSelection(content, start, end)), tag, attribute);
            var o, c := |OpenTag(tag, attribute)|, |CloseTag(tag)|;
            r[..start] + r[start + o..end + o] + r[end + o + c..] == content
  {
    var r := InsertTag(content, Some(CharSelection(content, start, end)), tag, attribute);
    var o, c := |OpenTag(tag, attribute)|, |CloseTag(tag)|;
    InsertTagLayout(content, start, end, tag, attribute);
    var before, inside, after := r[..start], r[start + o..end + o], r[end + o + c..];
    assert before == content[..start] && inside == content[start..end] && after == content[end..];
    ThreeParts(content, start, end);
  }

  /** A text is the concatenation of its pieces before, between and after two positions. */
  lemma ThreeParts(s: string, i: nat, j: nat)
    requires i <= j <= |s|
    ensures s == s[..i] + s[i..j] + s[j..]
  {
    assert s[..i] + s[i..j] == s[..j];
  }

  // Facts about the scanner used to follow it across inserted tags.

  predicate NoOpenBracket(s: string) {
    forall k :: 0 <= k < |s| ==> s[k] != '<'
  }

  /** Where nothing starts with `<`, the scanner skips ahead. */
  lemma TagsSkip(s: string, from: nat, to: nat)
    requires from <= to <= |s|
    requires forall k :: from <= k < to ==> s[k] != '<'
    ensures Tags(s, from) == Tags(s, to)
  {
    NextMatchSkip(s, from, to);
  }

  lemma {:induction false} NextMatchSkip(s: string, from: nat, to: nat)
    requires from <= to <= |s|
    requires forall k :: from <= k < to ==> s[k] != '<'
    ensures NextMatch(s, from) == NextMatch(s, to)
    decreases |s| - from
  {
    if from < to {
      assert MatchAt(s, from).None?;
      NextMatchSkip(s, from + 1, to);
    }
  }

  /** Where a match starts, it is the next tag. */
  lemma TagsAt(s: string, from: nat, m: Match)
    requires from < |s| && MatchAt(s, from) == Some(m)
    ensures Tags(s, from) == [TagOf(s, m)] + Tags(s, m.end)
  {
  }

  function ShiftMatch(m: Option<Match>, d: nat): Option<Match> {
    match m
    case None => None
    case Some(Match(a, b, n)) => Some(Match(a + d, b + d, n))
  }

  /** Dropping the first `d` characters of `s` leaves `b`. */
  predicate Drops(s: string, d: nat, b: string)
    decreases d
  {
    if d == 0 then s == b else s != [] && Drops(s[1..], d - 1, b)
  }

  /** From position `d` on, `s` reads as `b`. */
  predicate Suffix(s: string, d: nat, b: string) {
    |s| == d + |b| && Drops(s, d, b)
  }

  lemma {:induction false} DropsSlice(s: string, d: nat, b: string)
    requires Drops(s, d, b)
    ensures d <= |s| && s[d..] == b
    decreases d
  {
    if d > 0 {
      DropsSlice(s[1..], d - 1, b);
      assert s[1..][d - 1..] == s[d..];
    }
  }

  lemma SuffixSlice(s: string, d: nat, b: string)
    requires Suffix(s, d, b)
    ensures s[d..] == b
  {
    DropsSlice(s, d, b);
  }

  lemma CharShift(s: string, d: nat, b: string, j: nat)
    requires Suffix(s, d, b) && j < |b|
    ensures s[d + j] == b[j]
  {
    SuffixSlice(s, d, b);
    assert s[d..][j] == b[j];
  }

  lemma {:induction false} DropsConcat(a: string, b: string)
    ensures Drops(a + b, |a|, b)
    decreases |a|
  {
    if a != [] {
      assert (a + b)[1..] == a[1..] + b;
      DropsConcat(a[1..], b);
    } else {
      assert a + b == b;
    }
  }

  /** The run of letters is found at the same place after a prefix. */
  lemma {:induction false} LetterRunEndShift(s: string, d: nat, b: string, i: nat)
    requires Suffix(s, d, b) && i <= |b|
    ensures LetterRunEnd(s, d + i) == d + LetterRunEnd(b, i)
    decreases |b| - i
  {
    if i < |b| {
      CharShift(s, d, b, i);
      if IsLetter(b[i]) {
        LetterRunEndShift(s, d, b, i + 1);
      }
    }
  }

  /** So is the next `>`. */
  lemma {:induction false} FindCloseShift(s: string, d: nat, b: string, i: nat)
    requires Suffix(s, d, b) && i <= |b|
    ensures FindClose(s, d + i) == if FindClose(b, i).Some? then Some(d + FindClose(b, i).value) else None
    decreases |b| - i
  {
    if i < |b| {
      CharShift(s, d, b, i);
      if b[i] != '>' {
        FindCloseShift(s, d, b, i + 1);
      }
    }
  }

  lemma SliceShift(s: string, d: nat, b: string, x: nat, y: nat)
    requires Suffix(s, d, b) && x <= y <= |b|
    ensures s[d + x..d + y] == b[x..y]
  {
    SuffixSlice(s, d, b);
    forall j | 0 <= j < y - x
      ensures s[d + x..d + y][j] == b[x..y][j]
    {
      assert s[d..][x + j] == b[x + j];
    }
  }

  /** A match depends only on the text from its start on. */
  lemma MatchAtShift(s: string, d: nat, b: string, p: nat)
    requires Suffix(s, d, b) && p < |b|
    ensures MatchAt(s, d + p) == ShiftMatch(MatchAt(b, p), d)
  {
    CharShift(s, d, b, p);
    if b[p] == '<' {
      if p + 1 < |b| {
        CharShift(s, d, b, p + 1);
      }
      var q := if p + 1 < |b| && b[p + 1] == '/' then p + 2 else p + 1;
      var qs := if d + p + 1 < |s| && s[d + p + 1] == '/' then d + p + 2 else d + p + 1;
      assert qs == d + q;
      assert MatchAt(b, p) == MatchName(b, p, q);
      assert MatchAt(s, d + p) == MatchName(s, d + p, qs);
      MatchNameShift(s, d, b, p, q);
    }
  }

  lemma MatchNameShift(s: string, d: nat, b: string, p: nat, q: nat)
    requires Suffix(s, d, b) && q <= |b|
    ensures MatchName(s, d + p, d + q) == ShiftMatch(MatchName(b, p, q), d)
  {
    LetterRunEndShift(s, d, b, q);
    var k := LetterRunEnd(b, q);
    if k != q {
      FindCloseShift(s, d, b, k);
      SliceShift(s, d, b, q, k);
    }
  }

  lemma {:induction false} NextMatchShift(s: string, d: nat, b: string, i: nat)
    requires Suffix(s, d, b) && i <= |b|
    ensures NextMatch(s, d + i) == ShiftMatch(NextMatch(b, i), d)
    decreases |b| - i
  {
    if i == |b| {
    } else if MatchAt(b, i).Some? {
      NextMatchShiftHere(s, d, b, i);
    } else {
      NextMatchShift(s, d, b, i + 1);
      MatchAtShift(s, d, b, i);
      NextMatchShiftSkip(s, d, b, i);
    }
  }

  lemma NextMatchShiftHere(s: string, d: nat, b: string, i: nat)
    requires Suffix(s, d, b) && i < |b| && MatchAt(b, i).Some?
    ensures NextMatch(s, d + i) == ShiftMatch(NextMatch(b, i), d)
  {
    assert NextMatch(b, i) == MatchAt(b, i);
    assert MatchAt(s, d + i) == ShiftMatch(MatchAt(b, i), d) by {
      MatchAtShift(s, d, b, i);
    }
    assert NextMatch(s, d + i) == MatchAt(s, d + i);
  }

  lemma NextMatchShiftSkip(s: string, d: nat, b: string, i: nat)
    requires |s| == d + |b| && i < |b| && MatchAt(b, i).None? && MatchAt(s, d + i).None?
    requires NextMatch(s, d + i + 1) == ShiftMatch(NextMatch(b, i + 1), d)
    ensures NextMatch(s, d + i) == ShiftMatch(NextMatch(b, i), d)
  {
    NextMatchPast(b, i);
    NextMatchPast(s, d + i);
  }

  /** Where no match starts, the scan moves on by one. */
  lemma NextMatchPast(s: string, from: nat)
    requires from < |s| && MatchAt(s, from).None?
    ensures NextMatch(s, from) == NextMatch(s, from + 1)
  {
  }

  lemma TagOfShift(s: string, d: nat, b: string, m: Match)
    requires Suffix(s, d, b) && m.start + 2 < m.end <= |b|
    ensures TagOf(s, Match(m.start + d, m.end + d, m.name)) == TagOf(b, m)
  {
    CharShift(s, d, b, m.start + 1);
    CharShift(s, d, b, m.end - 2);
  }

  /** One step of the scan, from a match. */
  lemma TagsFromMatch(s: string, from: nat, m: Match)
    requires from <= |s| && NextMatch(s, from) == Some(m)
    ensures Tags(s, from) == [TagOf(s, m)] + Tags(s, m.end)
  {
  }

  /** The scan ends where no match is left. */
  lemma TagsFromNone(s: string, from: nat)
    requires from <= |s| && NextMatch(s, from).None?
    ensures Tags(s, from) == []
  {
  }

  /** The scan of a suffix does not depend on what precedes it. */
  lemma {:induction false} TagsShift(s: string, d: nat, b: string, i: nat)
    requires Suffix(s, d, b) && i <= |b|
    ensures Tags(s, d + i) == Tags(b, i)
    decreases |b| - i
  {
    NextMatchShift(s, d, b, i);
    var next := NextMatch(b, i);
    if next.Some? {
      var m := next.value;
      var ms := Match(m.start + d, m.end + d, m.name);
      assert i < m.end <= |b|;
      TagsShift(s, d, b, m.end);
      TagOfShift(s, d, b, m);
      TagsStep(s, d + i, ms, b, i, m);
    } else {
      TagsFromNone(s, d + i);
      TagsFromNone(b, i);
    }
  }

  /** Two scans that meet matches denoting the same tag, and agree after them, agree. */
  lemma TagsStep(s: string, from: nat, ms: Match, b: string, i: nat, m: Match)
    requires from <= |s| && NextMatch(s, from) == Some(ms)
    requires i <= |b| && NextMatch(b, i) == Some(m)
    requires TagOf(s, ms) == TagOf(b, m) && Tags(s, ms.end) == Tags(b, m.end)
    ensures Tags(s, from) == Tags(b, i)
  {
    TagsFromMatch(s, from, ms);
    TagsFromMatch(b, i, m);
  }

  /** Scanning from the end of `a` in `a + b` is scanning `b`. */
  lemma TagsAfter(a: string, b: string)
    ensures Tags(a + b, |a|) == Tags(b, 0)
  {
    DropsConcat(a, b);
    TagsShift(a + b, |a|, b, 0);
  }

  /** Text without `<` in front of `b` adds no tags. */
  lemma TagsPlainPrefix(a: string, b: string)
    requires NoOpenBracket(a)
    ensures Tags(a + b, 0) == Tags(b, 0)
  {
    TagsSkip(a + b, 0, |a|);
    TagsAfter(a, b);
  }

  /**
   * A tag name of letters, and attribute text that cannot extend the name, contains no
   * `>` and does not end in `/`: the opening tag is scanned as one pushing tag.
   */
  predicate SimpleTag(tag: string, attribute: string) {
    && IsName(tag)
    && (attribute == [] || !IsLetter(attribute[0]))
    && (forall k :: 0 <= k < |attribute| ==> attribute[k] != '>')
    && (attribute == [] || attribute[|attribute| - 1] != '/')
  }

  /** The run of letters from `i` ends at `k`. */
  lemma LetterRunEndIs(s: string, i: nat, k: nat)
    requires i <= k <= |s|
    requires forall j :: i <= j < k ==> IsLetter(s[j])
    requires k < |s| ==> !IsLetter(s[k])
    ensures LetterRunEnd(s, i) == k
  {
    LetterRunEndLetters(s, i);
  }

  /** The first `>` from `i` on is at `g`. */
  lemma FindCloseIs(s: string, i: nat, g: nat)
    requires i <= g < |s| && s[g] == '>'
    requires forall j :: i <= j < g ==> s[j] != '>'
    ensures FindClose(s, i) == Some(g)
  {
    FindCloseFirst(s, i);
  }

  /** The characters of an opening tag. */
  lemma OpenTagShape(tag: string, attribute: string)
    ensures var o, n, t := OpenTag(tag, attribute), |tag|, |attribute|;
            && |o| == n + t + 2 && o[0] == '<' && o[n + t + 1] == '>'
            && (forall j :: 0 <= j < n ==> o[1 + j] == tag[j])
            && (forall j :: 0 <= j < t ==> o[1 + n + j] == attribute[j])
  {
  }

  /** The characters of a closing tag. */
  lemma CloseTagShape(tag: string)
    ensures var c, n := CloseTag(tag), |tag|;
            && |c| == n + 3 && c[0] == '<' && c[1] == '/' && c[n + 2] == '>'
            && (forall j :: 0 <= j < n ==> c[2 + j] == tag[j])
  {
  }

  /** In an opening tag, the name is the run of letters after `<` and the first `>` is the last character. */
  lemma OpenTagScan(tag: string, attribute: string)
    requires SimpleTag(tag, attribute)
    ensures var o, n, t := OpenTag(tag, attribute), |tag|, |attribute|;
            LetterRunEnd(o, 1) == 1 + n && FindClose(o, 1 + n) == Some(1 + n + t)
  {
    OpenTagName(tag, attribute);
    OpenTagAttribute(tag, attribute);
  }

  lemma OpenTagName(tag: string, attribute: string)
    requires SimpleTag(tag, attribute)
    ensures LetterRunEnd(OpenTag(tag, attribute), 1) == 1 + |tag|
  {
    var o, n, t := OpenTag(tag, attribute), |tag|, |attribute|;
    OpenTagShape(tag, attribute);
    forall j | 1 <= j < 1 + n
      ensures IsLetter(o[j])
    {
      assert o[1 + (j - 1)] == tag[j - 1];
    }
    if t > 0 {
      assert o[1 + n + 0] == attribute[0];
    }
    LetterRunEndIs(o, 1, 1 + n);
  }

  lemma OpenTagAttribute(tag: string, attribute: string)
    requires SimpleTag(tag, attribute)
    ensures var o, n, t := OpenTag(tag, attribute), |tag|, |attribute|;
            FindClose(o, 1 + n) == Some(1 + n + t)
  {
    var o, n, t := OpenTag(tag, attribute), |tag|, |attribute|;
    OpenTagShape(tag, attribute);
    forall j | 1 + n <= j < 1 + n + t
      ensures o[j] != '>'
    {
      assert o[1 + n + (j - 1 - n)] == attribute[j - 1 - n];
    }
    FindCloseIs(o, 1 + n, 1 + n + t);
  }

  /** An opening tag is matched as a whole, with its name captured. */
  lemma MatchOpenTag(tag: string, attribute: string)
    requires SimpleTag(tag, attribute)
    ensures var o := OpenTag(tag, attribute);
            MatchAt(o, 0) == Some(Match(0, |o|, tag)) && TagOf(o, Match(0, |o|, tag)) == Tag(tag, false, false)
  {
    var o, n, t := OpenTag(tag, attribute), |tag|, |attribute|;
    OpenTagShape(tag, attribute);
    OpenTagScan(tag, attribute);
    assert o[1] == tag[0];
    assert o[1..1 + n] == tag;
    assert o[|o| - 2] != '/' by {
      if t > 0 {
        assert o[1 + n + (t - 1)] == attribute[t - 1];
      } else {
        assert o[1 + (n - 1)] == tag[n - 1];
      }
    }
  }

  /** A closing tag is matched as a whole, with its name captured. */
  lemma MatchCloseTag(tag: string)
    requires IsName(tag)
    ensures var c := CloseTag(tag);
            MatchAt(c, 0) == Some(Match(0, |c|, tag)) && TagOf(c, Match(0, |c|, tag)) == Tag(tag, true, false)
  {
    var c, n := CloseTag(tag), |tag|;
    CloseTagShape(tag);
    assert forall j :: 2 <= j < 2 + n ==> IsLetter(c[j]) by {
      forall j | 2 <= j < 2 + n ensures IsLetter(c[j]) {
        assert c[2 + (j - 2)] == tag[j - 2];
      }
    }
    LetterRunEndIs(c, 2, 2 + n);
    FindCloseIs(c, 2 + n, 2 + n);
    assert c[2..2 + n] == tag;
    assert c[|c| - 2] == tag[n - 1] by {
      assert c[2 + (n - 1)] == tag[n - 1];
    }
  }

  /** A match within the first part of a text is a match of the whole text. */
  lemma MatchAtPrefix(a: string, y: string, m: Match)
    requires 0 < |a| && MatchAt(a, 0) == Some(m) && m.end == |a|
    ensures MatchAt(a + y, 0) == Some(m) && TagOf(a + y, m) == TagOf(a, m)
  {
    var s := a + y;
    assert s[..|a|] == a;
    assert forall j :: 0 <= j < |a| ==> s[j] == a[j];
    var q := if 1 < |a| && a[1] == '/' then 2 else 1;
    var k := LetterRunEnd(a, q);
    var g := FindClose(a, k).value;
    assert g == |a| - 1;
    LetterRunEndLetters(a, q);
    FindCloseFirst(a, k);
    LetterRunEndIs(s, q, k);
    FindCloseIs(s, k, g);
    assert s[q..k] == a[q..k];
  }

  lemma TagsOpenTag(tag: string, attribute: string, y: string)
    requires SimpleTag(tag, attribute)
    ensures Tags(OpenTag(tag, attribute) + y, 0) == [Tag(tag, false, false)] + Tags(y, 0)
  {
    var o := OpenTag(tag, attribute);
    var m := Match(0, |o|, tag);
    MatchOpenTag(tag, attribute);
    MatchAtPrefix(o, y, m);
    TagsAt(o + y, 0, m);
    TagsAfter(o, y);
  }

  lemma TagsCloseTag(tag: string, y: string)
    requires IsName(tag)
    ensures Tags(CloseTag(tag) + y, 0) == [Tag(tag, true, false)] + Tags(y, 0)
  {
    var c := CloseTag(tag);
    var m := Match(0, |c|, tag);
    MatchCloseTag(tag);
    MatchAtPrefix(c, y, m);
    TagsAt(c + y, 0, m);
    TagsAfter(c, y);
  }

  /**
   * Wrapping a selection in a simple tag pair, where no `<` occurs before the selection's
   * end, leaves the balance verdict on the content unchanged: the pair is scanned as an
   * opening tag immediately closed by a tag of the same name.
   */
  lemma InsertTagKeepsBalance(content: string, start: nat, end: nat, tag: string, attribute: string)
    requires start <= end <= |content|
    requires NoOpenBracket(content[..end])
    requires SimpleTag(tag, attribute)
    ensures Balanced(InsertTag(content, Some(CharSelection(content, start, end)), tag, attribute)) == Balanced(content)
  {
    var rest := Tags(content[end..], 0);
    InsertedTags(content, start, end, tag, attribute);
    assert content == content[..end] + content[end..];
    TagsPlainPrefix(content[..end], content[end..]);
    CheckPair(tag, rest);
  }

  /** The tags of the new content: the inserted pair, then the tags after the selection. */
  lemma InsertedTags(content: string, start: nat, end: nat, tag: string, attribute: string)
    requires start <= end <= |content|
    requires NoOpenBracket(content[..end])
    requires SimpleTag(tag, attribute)
    ensures Tags(InsertTag(content, Some(CharSelection(content, start, end)), tag, attribute), 0)
         == [Tag(tag, false, false)] + ([Tag(tag, true, false)] + Tags(content[end..], 0))
  {
    InsertTagChars(content, start, end, tag, attribute);
    WrappedTags(content, start, end, tag, attribute);
  }

  /** The same, for the text written out as the five pieces. */
  lemma WrappedTags(content: string, start: nat, end: nat, tag: string, attribute: string)
    requires start <= end <= |content|
    requires NoOpenBracket(content[..end])
    requires SimpleTag(tag, attribute)
    ensures Tags(content[..start] + OpenTag(tag, attribute) + content[start..end] + CloseTag(tag) + content[end..], 0)
         == [Tag(tag, false, false)] + ([Tag(tag, true, false)] + Tags(content[end..], 0))
  {
    var before, inside, after := content[..start], content[start..end], content[end..];
    var tail := CloseTag(tag) + after;
    var middle := inside + tail;
    var whole := OpenTag(tag, attribute) + middle;
    assert before + OpenTag(tag, attribute) + inside + CloseTag(tag) + after == before + whole;
    NoOpenBracketPart(content[..end], 0, start);
    assert content[..end][0..start] == before;
    NoOpenBracketPart(content[..end], start, end);
    assert content[..end][start..end] == inside;
    TagsPlainPrefix(before, whole);
    TagsOpenTag(tag, attribute, middle);
    TagsPlainPrefix(inside, tail);
    TagsCloseTag(tag, after);
  }

  lemma NoOpenBracketPart(s: string, i: nat, j: nat)
    requires NoOpenBracket(s) && i <= j <= |s|
    ensures NoOpenBracket(s[i..j])
  {
    forall k | 0 <= k < j - i
      ensures s[i..j][k] != '<'
    {
      assert s[i..j][k] == s[i + k];
    }
  }

  /** A tag opened and at once closed with the same name leaves the stack as it was. */
  lemma CheckPair(tag: string, rest: seq<Tag>)
    ensures Check([Tag(tag, false, false)] + ([Tag(tag, true, false)] + rest), []) == Check(rest, [])
  {
    var ts := [Tag(tag, false, false)] + ([Tag(tag, true, false)] + rest);
    assert ts[1..] == [Tag(tag, true, false)] + rest;
    assert ts[1..][1..] == rest;
    assert [tag][..0] == [];
  }

  /** The toolbar's buttons and the tag and attribute text each inserts. */
  datatype ToolbarButton = Italic | Bold | Code | Link

  function ButtonTag(b: ToolbarButton): (r: (string, string))
    ensures SimpleTag(r.0, r.1)
  {
    match b
    case Italic => ("i", "")
    case Bold => ("strong", "")
    case Code => ("code", "")
    case Link => ("a", " href=\"#\" title=\"yourtitle\"")
  }

  /** On text without `<`, every toolbar button produces balanced markup. */
  lemma ToolbarInsertBalanced(content: string, start: nat, end: nat, b: ToolbarButton)
    requires start <= end <= |content|
    requires NoOpenBracket(content)
    ensures Balanced(InsertTag(content, Some(CharSelection(content, start, end)), ButtonTag(b).0, ButtonTag(b).1))
  {
    InsertTagKeepsBalance(content, start, end, ButtonTag(b).0, ButtonTag(b).1);
    TagsSkip(content, 0, |content|);
  }

  // Worked inputs.

  predicate IsName(n: string) {
    |n| > 0 && forall k :: 0 <= k < |n| ==> IsLetter(n[k])
  }

  /** Text wrapped in an element contributes exactly its opening and closing tag. */
  lemma TagsWrap(tag: string, attribute: string, x: string, y: string)
    requires SimpleTag(tag, attribute) && NoOpenBracket(x)
    ensures Tags(OpenTag(tag, attribute) + (x + (CloseTag(tag) + y)), 0)
         == [Tag(tag, false, false), Tag(tag, true, false)] + Tags(y, 0)
  {
    var t := CloseTag(tag) + y;
    TagsOpenTag(tag, attribute, x + t);
    TagsPlainPrefix(x, t);
    TagsCloseTag(tag, y);
  }

  lemma TagsNested(a: string, attrA: string, b: string, attrB: string, x: string)
    requires SimpleTag(a, attrA) && SimpleTag(b, attrB) && NoOpenBracket(x)
    ensures Tags(OpenTag(a, attrA) + (OpenTag(b, attrB) + (x + (CloseTag(b) + CloseTag(a)))), 0)
         == [Tag(a, false, false), Tag(b, false, false), Tag(b, true, false), Tag(a, true, false)]
  {
    var inner := OpenTag(b, attrB) + (x + (CloseTag(b) + CloseTag(a)));
    var ta, tb, ea, eb := Tag(a, false, false), Tag(b, false, false), Tag(a, true, false), Tag(b, true, false);
    assert Tags(inner, 0) == [tb, eb] + [ea] by {
      TagsWrap(b, attrB, x, CloseTag(a));
      TagsLastClose(a);
    }
    assert Tags(OpenTag(a, attrA) + inner, 0) == [ta] + Tags(inner, 0) by {
      TagsOpenTag(a, attrA, inner);
    }
    assert [ta] + ([tb, eb] + [ea]) == [ta, tb, eb, ea];
  }

  /** Properly nested elements are accepted: `<a><b>x</b></a>`, with any attributes. */
  lemma NestedAccepted(a: string, attrA: string, b: string, attrB: string, x: string)
    requires SimpleTag(a, attrA) && SimpleTag(b, attrB) && NoOpenBracket(x)
    ensures Balanced(OpenTag(a, attrA) + (OpenTag(b, attrB) + (x + (CloseTag(b) + CloseTag(a)))))
  {
    TagsNested(a, attrA, b, attrB, x);
    CheckNested(a, b);
  }

  lemma CheckNested(a: string, b: string)
    ensures Check([Tag(a, false, false), Tag(b, false, false), Tag(b, true, false), Tag(a, true, false)], [])
  {
    var ta, tb, ea, eb := Tag(a, false, false), Tag(b, false, false), Tag(a, true, false), Tag(b, true, false);
    assert [ta, tb, eb, ea][1..] == [tb, eb, ea] && [tb, eb, ea][1..] == [eb, ea] && [eb, ea][1..] == [ea];
    assert [] + [a] == [a] && [a] + [b] == [a, b] && [a, b][..1] == [a] && [a][..0] == [];
    assert Check([ea], [a]);
    assert Check([eb, ea], [a, b]);
    assert Check([tb, eb, ea], [a]);
  }

  /** Crossed elements are rejected: `<a><b>x</a>`. */
  lemma CrossedRejected(a: string, attrA: string, b: string, attrB: string, x: string)
    requires SimpleTag(a, attrA) && SimpleTag(b, attrB) && NoOpenBracket(x)
    ensures !Balanced(OpenTag(a, attrA) + (OpenTag(b, attrB) + (x + CloseTag(a))))
  {
    var t2 := x + CloseTag(a);
    var t1 := OpenTag(b, attrB) + t2;
    var ta, tb, ea := Tag(a, false, false), Tag(b, false, false), Tag(a, true, false);
    assert Tags(OpenTag(a, attrA) + t1, 0) == [ta] + ([tb] + Tags(CloseTag(a), 0)) by {
      TagsOpenTag(a, attrA, t1);
      TagsOpenTag(b, attrB, t2);
      TagsPlainPrefix(x, CloseTag(a));
    }
    assert Tags(CloseTag(a), 0) == [ea] by {
      TagsLastClose(a);
    }
    var ts := [ta] + ([tb] + [ea]);
    assert !Check(ts, []) by {
      assert ts[1..] == [tb, ea] && [tb, ea][1..] == [ea] && [ea][1..] == [];
      assert [] + [a] == [a] && [a] + [b] == [a, b];
      assert !Check([ea], [a, b]);
      assert !Check([tb, ea], [a]);
    }
  }

  lemma TagsLastClose(a: string)
    requires IsName(a)
    ensures Tags(CloseTag(a), 0) == [Tag(a, true, false)]
  {
    var empty := "";
    assert CloseTag(a) + empty == CloseTag(a);
    TagsCloseTag(a, empty);
    assert Tags(empty, 0) == [];
  }

  /** An element left open is rejected, and so is a closing tag with nothing open. */
  lemma UnclosedExample(a: string, x: string)
    requires IsName(a) && NoOpenBracket(x)
    ensures !Balanced(OpenTag(a, "") + x)
  {
    var empty := "";
    assert OpenTag(a, "") + x == OpenTag(a, empty) + (x + empty);
    assert Tags(OpenTag(a, "") + x, 0) == [Tag(a, false, false)] by {
      TagsOpenTag(a, empty, x + empty);
      TagsPlainPrefix(x, empty);
      assert Tags(empty, 0) == [];
    }
    var ta := Tag(a, false, false);
    assert !Check([ta], []) by {
      assert [ta][1..] == [] && [] + [a] == [a];
      assert !Check([], [a]);
    }
  }

  lemma UnopenedExample(a: string, x: string)
    requires IsName(a) && NoOpenBracket(x)
    ensures !Balanced(CloseTag(a) + x)
  {
    assert Tags(CloseTag(a) + x, 0) == [Tag(a, true, false)] + Tags(x, 0) by {
      TagsCloseTag(a, x);
    }
  }

  /** Names are matched in any case but compared as written: `<B>x</b>` is rejected. */
  lemma CaseSensitiveNames(a: string, b: string, x: string)
    requires IsName(a) && IsName(b) && a != b && NoOpenBracket(x)
    ensures !Balanced(OpenTag(a, "") + x + CloseTag(b))
  {
    var empty := "";
    var t2 := CloseTag(b) + empty;
    var t1 := x + t2;
    assert OpenTag(a, "") + x + CloseTag(b) == OpenTag(a, empty) + t1;
    var ta, eb := Tag(a, false, false), Tag(b, true, false);
    assert Tags(OpenTag(a, "") + x + CloseTag(b), 0) == [ta, eb] by {
      TagsOpenTag(a, empty, t1);
      TagsPlainPrefix(x, t2);
      TagsCloseTag(b, empty);
      assert Tags(empty, 0) == [];
    }
    assert !Check([ta, eb], []) by {
      assert [ta, eb][1..] == [eb] && [] + [a] == [a];
      assert !Check([eb], [a]);
    }
  }

  /** A self-closing tag is never pushed, so `<br/>` alone is balanced. */
  lemma SelfClosingExample()
    ensures Tags("<br/>", 0) == [Tag("br", false, true)]
    ensures Balanced("<br/>")
  {
    var s := "<br/>";
    assert LetterRunEnd(s, 3) == 3;
    assert LetterRunEnd(s, 1) == 3;
    assert FindClose(s, 3) == Some(4);
    assert s[1..3] == "br";
    assert MatchAt(s, 0) == Some(Match(0, 5, "br"));
    assert s[0..5] == s;
    assert Tags(s, 5) == [];
  }

  /** The closing test comes first: `</b/>` is a closing tag, not a self-closing one, and pops an empty stack. */
  lemma ClosingBeforeSelfClosing()
    ensures Tags("</b/>", 0) == [Tag("b", true, true)]
    ensures !Balanced("</b/>")
  {
    var s := "</b/>";
    assert LetterRunEnd(s, 3) == 3;
    assert LetterRunEnd(s, 2) == 3;
    assert FindClose(s, 3) == Some(4);
    assert s[2..3] == "b";
    assert MatchAt(s, 0) == Some(Match(0, 5, "b"));
    assert s[0..5] == s;
    assert Tags(s, 5) == [];
  }
}
