/** The string operations the program borrows: trimming, prefixes and splitting at a separator. */
module Text {
  import opened Wrappers

  /** Unicode white space. */
  predicate IsSpace(c: char) {
    || c in {'\t', '\n', '\U{000B}', '\U{000C}', '\r', ' ', '\U{0085}', '\U{00A0}', '\U{1680}'}
    || '\U{2000}' <= c <= '\U{200A}'
    || c in {'\U{2028}', '\U{2029}', '\U{202F}', '\U{205F}', '\U{3000}'}
  }

  /** The code points with the property White_Space of the Unicode Character Database, PropList.txt. */
  lemma SpaceCodes(c: char)
    ensures IsSpace(c) <==> var n := c as int;
                            || 9 <= n <= 13 || n in {32, 133, 160, 5760} || 8192 <= n <= 8202
                            || n in {8232, 8233, 8239, 8287, 12288}
  {}

  predicate AllSpace(s: string) {
    forall c :: c in s ==> IsSpace(c)
  }

  function TrimLeft(s: string): string {
    if s != "" && IsSpace(s[0]) then TrimLeft(s[1..]) else s
  }

  function TrimRight(s: string): string {
    if s != "" && IsSpace(s[|s| - 1]) then TrimRight(s[..|s| - 1]) else s
  }

  function TrimSpace(s: string): string {
    TrimRight(TrimLeft(s))
  }

  /** Neither end is white space. */
  predicate Trimmed(s: string) {
    s != "" ==> !IsSpace(s[0]) && !IsSpace(s[|s| - 1])
  }

  predicate HasPrefix(s: string, prefix: string) {
    prefix <= s
  }

  /** Splits at the first separator. */
  function Cut(s: string, sep: char): Option<(string, string)> {
    if s == "" then None
    else if s[0] == sep then Some(("", s[1..]))
    else
      match Cut(s[1..], sep)
      case None => None
      case Some((before, after)) => Some(([s[0]] + before, after))
  }

  /** Splits at the last separator. */
  function CutLast(s: string, sep: char): Option<(string, string)> {
    if s == "" then None
    else
      var k := |s| - 1;
      if s[k] == sep then Some((s[..k], ""))
      else
        match CutLast(s[..k], sep)
        case None => None
        case Some((before, after)) => Some((before, after + [s[k]]))
  }

  /** Cutting at the last separator undoes joining when the tail does not hold it. */
  lemma {:induction false} CutLastJoined(head: string, sep: char, tail: string)
    requires sep !in tail
    ensures CutLast(head + [sep] + tail, sep) == Some((head, tail))
    decreases |tail|
  {
    var s := head + [sep] + tail;
    if tail == "" {
      assert s[..|s| - 1] == head;
    } else {
      var k := |tail| - 1;
      assert s[..|s| - 1] == head + [sep] + tail[..k];
      CutLastJoined(head, sep, tail[..k]);
      assert tail[..k] + [tail[k]] == tail;
    }
  }

  lemma {:induction false} TrimRightKeepsFirst(s: string)
    requires s != "" && !IsSpace(s[0])
    ensures var t := TrimRight(s); t != "" && t[0] == s[0] && !IsSpace(t[|t| - 1])
  {
    if IsSpace(s[|s| - 1]) {
      TrimRightKeepsFirst(s[..|s| - 1]);
    }
  }

  lemma {:induction false} TrimLeftStartsClean(s: string)
    ensures var t := TrimLeft(s); t != "" ==> !IsSpace(t[0])
  {
    if s != "" && IsSpace(s[0]) {
      TrimLeftStartsClean(s[1..]);
    }
  }

  lemma TrimSpaceIsTrimmed(s: string)
    ensures Trimmed(TrimSpace(s))
  {
    TrimLeftStartsClean(s);
    var t := TrimLeft(s);
    if t != "" {
      TrimRightKeepsFirst(t);
    }
  }

  lemma {:induction false} TrimLeftDropsPadding(left: string, s: string)
    requires AllSpace(left)
    requires s != "" && !IsSpace(s[0])
    ensures TrimLeft(left + s) == s
  {
    if left == "" {
      assert left + s == s;
    } else {
      assert (left + s)[1..] == left[1..] + s;
      TrimLeftDropsPadding(left[1..], s);
    }
  }

  lemma {:induction false} TrimRightDropsPadding(s: string, right: string)
    requires AllSpace(right)
    requires s != "" && !IsSpace(s[|s| - 1])
    ensures TrimRight(s + right) == s
  {
    if right == "" {
      assert s + right == s;
    } else {
      assert (s + right)[..|s + right| - 1] == s + right[..|right| - 1];
      TrimRightDropsPadding(s, right[..|right| - 1]);
    }
  }

  /** Trimming recovers a clean text from any white-space padding around it. */
  lemma TrimSpaceDropsPadding(left: string, s: string, right: string)
    requires AllSpace(left) && AllSpace(right)
    requires s != "" && Trimmed(s)
    ensures TrimSpace(left + s + right) == s
  {
    assert left + s + right == left + (s + right);
    TrimLeftDropsPadding(left, s + right);
    TrimRightDropsPadding(s, right);
  }

  /** Cutting undoes joining when the head does not hold the separator. */
  lemma {:induction false} CutJoined(head: string, sep: char, tail: string)
    requires sep !in head
    ensures Cut(head + [sep] + tail, sep) == Some((head, tail))
  {
    var s := head + [sep] + tail;
    if head == "" {
      assert s[1..] == tail;
    } else {
      assert s[1..] == head[1..] + [sep] + tail;
      CutJoined(head[1..], sep, tail);
      assert [s[0]] + head[1..] == head;
    }
  }
}
