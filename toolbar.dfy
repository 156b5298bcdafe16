/** The toolbar's buffer transforms. Each takes the buffer and the selection
    `[start, end)` and gives the new buffer and, when the command sets one,
    the new selection. */
module Toolbar {
  import opened Wrappers
  import opened Text

  datatype Range = Range(start: nat, end: nat)

  /** A new buffer and the selection the command sets, if it sets one. */
  datatype Edit = Edit(text: string, selection: Option<Range>)

  /** The five toolbar buttons; `Link` carries the answer to its URL prompt
      (`None` when the prompt is cancelled). */
  datatype Command = Bold | Italic | Link(url: Option<string>) | Code | BulletList

  /** `wrapText(before, after)`: `before` goes in front of the selection and
      `after` behind it; the new selection is the originally selected text,
      now moved right by the length of `before`. */
  function Wrap(buf: string, start: nat, end: nat, before: string, after: string): (e: Edit)
    requires start <= end <= |buf|
    ensures e.selection == Some(Range(start + |before|, end + |before|))
    ensures |e.text| == |buf| + |before| + |after|
    ensures e.text[..start] == buf[..start]
    ensures e.text[start..start + |before|] == before
    ensures e.text[start + |before|..end + |before|] == buf[start..end]
    ensures e.text[end + |before|..end + |before| + |after|] == after
    ensures e.text[end + |before| + |after|..] == buf[end..]
  {
    var text := buf[..start] + before + buf[start..end] + after + buf[end..];
    assert text[..start] == buf[..start];
    assert text[start..start + |before|] == before;
    assert text[start + |before|..end + |before|] == buf[start..end];
    assert text[end + |before|..end + |before| + |after|] == after;
    assert text[end + |before| + |after|..] == buf[end..];
    Edit(text, Some(Range(start + |before|, end + |before|)))
  }

  /** Each line with `- ` in front. */
  function PrefixLines(lines: seq<string>): (r: seq<string>)
    ensures |r| == |lines|
    ensures forall i :: 0 <= i < |r| ==> r[i] == "- " + lines[i]
  {
    if lines == [] then [] else ["- " + lines[0]] + PrefixLines(lines[1..])
  }

  /** `selectedText.split('\n').map(line => `- ${line}`).join('\n')`. */
  function Bullets(sel: string): (r: string)
    ensures |r| >= 2 && r[..2] == "- "
  {
    var lines := PrefixLines(Split(sel, '\n'));
    JoinStartsWithFirst(lines, "\n");
    Join(lines, "\n")
  }

  /** The list button's transform: the selection is replaced by its lines,
      each prefixed, and the selection is not set. */
  function ListEdit(buf: string, start: nat, end: nat): (e: Edit)
    requires start <= end <= |buf|
    ensures e.selection == None
    ensures |e.text| == start + |Bullets(buf[start..end])| + (|buf| - end)
    ensures e.text[..start] == buf[..start]
    ensures e.text[start..start + |Bullets(buf[start..end])|] == Bullets(buf[start..end])
    ensures e.text[start + |Bullets(buf[start..end])|..] == buf[end..]
  {
    var b := Bullets(buf[start..end]);
    var text := buf[..start] + b + buf[end..];
    assert text[..start] == buf[..start];
    assert text[start..start + |b|] == b;
    assert text[start + |b|..] == buf[end..];
    Edit(text, None)
  }

  /** The effect of pressing a toolbar button with selection `[start, end)`. */
  function Apply(cmd: Command, buf: string, start: nat, end: nat): Edit
    requires start <= end <= |buf|
  {
    match cmd
    case Bold => Wrap(buf, start, end, "**", "**")
    case Italic => Wrap(buf, start, end, "*", "*")
    case Link(url) =>
      if Truthy(url) then Wrap(buf, start, end, "[", "](" + url.value + ")") else Edit(buf, None)
    case Code =>
      if '\n' in buf[start..end] then Wrap(buf, start, end, "```\n", "\n```")
      else Wrap(buf, start, end, "`", "`")
    case BulletList => ListEdit(buf, start, end)
  }

  /** Every button keeps the text in front of and behind the selection, and a
      selection it sets lies in the new text and holds exactly the text that
      was selected. */
  lemma ApplyKeepsSurroundings(cmd: Command, buf: string, start: nat, end: nat)
    requires start <= end <= |buf|
    ensures Keeps(buf, start, end, Apply(cmd, buf, start, end))
  {
    match cmd
    case Bold => WrapKeeps(buf, start, end, "**", "**");
    case Italic => WrapKeeps(buf, start, end, "*", "*");
    case Link(url) =>
      if Truthy(url) {
        WrapKeeps(buf, start, end, "[", "](" + url.value + ")");
      }
    case Code =>
      if '\n' in buf[start..end] {
        WrapKeeps(buf, start, end, "```\n", "\n```");
      } else {
        WrapKeeps(buf, start, end, "`", "`");
      }
    case BulletList =>
      BulletsLines(buf[start..end]);
  }

  /** The new text keeps what lies in front of and behind `[start, end)`,
      and a selection it sets lies in it and holds the old selected text. */
  ghost predicate Keeps(buf: string, start: nat, end: nat, e: Edit)
    requires start <= end <= |buf|
  {
    && |e.text| >= |buf| && e.text[..start] == buf[..start]
    && e.text[|e.text| - (|buf| - end)..] == buf[end..]
    && (e.selection.Some? ==>
          && e.selection.value.start <= e.selection.value.end <= |e.text|
          && e.text[e.selection.value.start..e.selection.value.end] == buf[start..end])
  }

  lemma WrapKeeps(buf: string, start: nat, end: nat, before: string, after: string)
    requires start <= end <= |buf|
    ensures Keeps(buf, start, end, Wrap(buf, start, end, before, after))
  {
  }

  /** Bold and italic put two or one `*` on each side and reselect the text. */
  lemma Emphasis(buf: string, start: nat, end: nat)
    requires start <= end <= |buf|
    ensures Apply(Bold, buf, start, end).text == buf[..start] + "**" + buf[start..end] + "**" + buf[end..]
    ensures Apply(Bold, buf, start, end).selection == Some(Range(start + 2, end + 2))
    ensures Apply(Italic, buf, start, end).text == buf[..start] + "*" + buf[start..end] + "*" + buf[end..]
    ensures Apply(Italic, buf, start, end).selection == Some(Range(start + 1, end + 1))
  {
  }

  lemma BoldExample()
    ensures Apply(Bold, "hello world", 0, 5) == Edit("**hello** world", Some(Range(2, 7)))
  {
    var e := Apply(Bold, "hello world", 0, 5);
    assert e.text == "**" + "hello" + "**" + " world";
  }

  /** A cancelled or empty URL changes nothing; otherwise the selection
      becomes `[sel](url)` and stays selected. */
  lemma LinkEdit(buf: string, start: nat, end: nat, url: Option<string>)
    requires start <= end <= |buf|
    ensures !Truthy(url) ==> Apply(Link(url), buf, start, end) == Edit(buf, None)
    ensures Truthy(url) ==>
      Apply(Link(url), buf, start, end).text
        == buf[..start] + "[" + buf[start..end] + "](" + url.value + ")" + buf[end..]
    ensures Truthy(url) ==>
      Apply(Link(url), buf, start, end).selection == Some(Range(start + 1, end + 1))
  {
  }

  /** Code wraps in fences exactly when the selection holds a line break:
      the buffer grows by the eight fence characters in that case and by two
      backticks otherwise. */
  lemma CodeFences(buf: string, start: nat, end: nat)
    requires start <= end <= |buf|
    ensures var e := Apply(Code, buf, start, end);
      && ('\n' in buf[start..end] <==> |e.text| == |buf| + 8)
      && ('\n' in buf[start..end] ==>
            e.text == buf[..start] + "```\n" + buf[start..end] + "\n```" + buf[end..]
            && e.selection == Some(Range(start + 4, end + 4)))
      && ('\n' !in buf[start..end] ==>
            e.text == buf[..start] + "`" + buf[start..end] + "`" + buf[end..]
            && e.selection == Some(Range(start + 1, end + 1)))
  {
  }

  lemma {:induction false} JoinPrefixed(lines: seq<string>)
    ensures Join(PrefixLines(lines), "\n") == (if lines == [] then "" else "- ") + Join(lines, "\n- ")
  {
    if |lines| > 1 {
      JoinPrefixed(lines[1..]);
      assert PrefixLines(lines)[1..] == PrefixLines(lines[1..]);
    }
  }

  /** The list text is the selection with `- ` in front and after each line
      break. */
  lemma BulletsShape(sel: string)
    ensures Bullets(sel) == "- " + ReplaceChar(sel, '\n', "\n- ")
  {
    JoinPrefixed(Split(sel, '\n'));
    JoinSplit(sel, '\n', "\n- ");
  }

  /** The list text has as many line breaks as the selection, and two more
      characters per line. */
  lemma BulletsLines(sel: string)
    ensures Count(Bullets(sel), '\n') == Count(sel, '\n')
    ensures |Bullets(sel)| == |sel| + 2 * (Count(sel, '\n') + 1)
  {
    BulletsShape(sel);
    assert Count("\n- ", '\n') == 1 by {
      assert "\n- "[1..] == "- ";
      assert "- "[1..] == " ";
      assert " "[1..] == "";
    }
    CountReplace(sel, '\n', "\n- ");
    CountAppend("- ", ReplaceChar(sel, '\n', "\n- "), '\n');
    ReplaceLength(sel);
  }

  lemma {:induction false} ReplaceLength(s: string)
    ensures |ReplaceChar(s, '\n', "\n- ")| == |s| + 2 * Count(s, '\n')
  {
    if s != [] {
      ReplaceLength(s[1..]);
    }
  }

  lemma CountThree(a: string, m: string, z: string, c: char)
    ensures Count(a + m + z, c) == Count(a, c) + Count(m, c) + Count(z, c)
  {
    CountAppend(a, m, c);
    CountAppend(a + m, z, c);
  }

  /** The list button's text is the selection's lines, prefixed, put in
      place of the selection. */
  lemma ListSplice(buf: string, start: nat, end: nat)
    requires start <= end <= |buf|
    ensures Apply(BulletList, buf, start, end).text == buf[..start] + Bullets(buf[start..end]) + buf[end..]
  {
  }

  /** The list button keeps the number of lines of the whole buffer. */
  lemma ListKeepsLines(buf: string, start: nat, end: nat)
    requires start <= end <= |buf|
    ensures Count(Apply(BulletList, buf, start, end).text, '\n') == Count(buf, '\n')
  {
    var t := Apply(BulletList, buf, start, end).text;
    ListSplice(buf, start, end);
    TextAround(buf[..start], buf[start..end], buf[end..], t);
    WholeBuffer(buf, start, end, t);
  }

  lemma WholeBuffer(buf: string, start: nat, end: nat, t: string)
    requires start <= end <= |buf|
    requires Count(t, '\n') == Count(buf[..start] + buf[start..end] + buf[end..], '\n')
    ensures Count(t, '\n') == Count(buf, '\n')
  {
    assert buf == buf[..start] + buf[start..end] + buf[end..];
  }

  /** With nothing selected the list button inserts `- ` at the cursor. */
  lemma ListEmptySelection(buf: string, at: nat)
    requires at <= |buf|
    ensures Apply(BulletList, buf, at, at).text == buf[..at] + "- " + buf[at..]
  {
    ListSplice(buf, at, at);
    assert buf[at..at] == "";
    BulletsShape("");
  }

  /** Putting the list text in place of the selection keeps the number of
      line breaks. */
  lemma TextAround(pre: string, sel: string, post: string, t: string)
    requires t == pre + Bullets(sel) + post
    ensures Count(t, '\n') == Count(pre + sel + post, '\n')
  {
    BulletsLines(sel);
    CountThree(pre, sel, post, '\n');
    CountThree(pre, Bullets(sel), post, '\n');
  }

  lemma ListExample()
    ensures Bullets("a\nb") == "- a\n- b"
  {
    BulletsShape("a\nb");
    assert "a\nb"[1..] == "\nb";
    assert "\nb"[1..] == "b";
  }
}
