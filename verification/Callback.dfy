/** The inline-keyboard payloads of the service bot: what the menus print and what a press is parsed into. */
module Callback {
  import opened Wrappers
  import opened Decimal
  import opened Text
  import Int64

  /** A parsed payload; fields a kind does not use keep their zero value. */
  datatype Callback = Callback(kind: string, marked: int, idx: int, page: int, arg: string)

  /** The kinds whose payload is the kind name and a chat id. */
  const CHAT_KINDS := ["chat", "ttl", "ttlclear", "pat", "patadd", "purge", "off"]

  /** The page number after the configuration prefix. */
  function ParsePage(rest: string): Option<Callback> {
    if !HasPrefix(rest, "page:") then None
    else
      match ParseInt(rest[|"page:"|..])
      case None => None
      case Some(p) => Some(Callback("page", 0, 0, p, ""))
  }

  function ParseChat(kind: string, rest: string): Option<Callback> {
    match ParseInt(rest)
    case None => None
    case Some(m) => Some(Callback(kind, m, 0, 0, ""))
  }

  /** The chat id and the pattern index of a removal button. */
  function ParsePatDel(rest: string): Option<Callback> {
    match Cut(rest, ':')
    case None => None
    case Some((a, b)) =>
      match (ParseInt(a), ParseInt(b))
      case (Some(m), Some(i)) => Some(Callback("patdel", m, i, 0, ""))
      case _ => None
  }

  function ParseCallback(data: string): Option<Callback> {
    match Cut(data, ':')
    case None => None
    case Some((prefix, rest)) =>
      if prefix == "cfg" then ParsePage(rest)
      else if prefix in CHAT_KINDS then ParseChat(prefix, rest)
      else if prefix == "patkind" then
        if rest != "exact" && rest != "prefix" then None
        else Some(Callback("patkind", 0, 0, 0, rest))
      else if prefix == "patdel" then ParsePatDel(rest)
      else None
  }

  // What the menus put on their buttons.

  function Join(head: string, tail: string): string {
    head + ":" + tail
  }

  function PagePayload(page: int): string {
    Join("cfg", "page:" + FormatInt(page))
  }

  function ChatPayload(kind: string, marked: int): string {
    Join(kind, FormatInt(marked))
  }

  function PatKindPayload(arg: string): string {
    Join("patkind", arg)
  }

  function PatDelPayload(marked: int, idx: int): string {
    Join("patdel", Join(FormatInt(marked), FormatInt(idx)))
  }

  /** The button that carries the given callback. */
  function Print(c: Callback): string {
    if c.kind == "page" then PagePayload(c.page)
    else if c.kind == "patkind" then PatKindPayload(c.arg)
    else if c.kind == "patdel" then PatDelPayload(c.marked, c.idx)
    else ChatPayload(c.kind, c.marked)
  }

  /** The callbacks the menus can print: one kind, its own fields in 64 bits, every other field zero. */
  predicate Printable(c: Callback) {
    || (c.kind == "page" && Int64.Fits(c.page) && c == Callback("page", 0, 0, c.page, ""))
    || (c.kind in CHAT_KINDS && Int64.Fits(c.marked) && c == Callback(c.kind, c.marked, 0, 0, ""))
    || (c.arg in ["exact", "prefix"] && c == Callback("patkind", 0, 0, 0, c.arg))
    || (c.kind == "patdel" && Int64.Fits(c.marked) && Int64.Fits(c.idx)
        && c == Callback("patdel", c.marked, c.idx, 0, ""))
  }

  lemma CutPayload(head: string, tail: string)
    requires ':' !in head
    ensures Cut(Join(head, tail), ':') == Some((head, tail))
  {
    CutJoined(head, ':', tail);
  }

  lemma PageTailRoundTrip(digits: string, page: int)
    requires Int64.Fits(page) && digits == FormatInt(page)
    ensures ParsePage("page:" + digits) == Some(Callback("page", 0, 0, page, ""))
  {
    ParseFormat(page);
    assert ("page:" + digits)[|"page:"|..] == digits;
  }

  lemma PageRoundTrip(page: int)
    requires Int64.Fits(page)
    ensures ParseCallback(PagePayload(page)) == Some(Callback("page", 0, 0, page, ""))
  {
    PageTailRoundTrip(FormatInt(page), page);
    CutPayload("cfg", "page:" + FormatInt(page));
  }

  lemma ChatRoundTrip(kind: string, marked: int)
    requires kind in CHAT_KINDS && Int64.Fits(marked)
    ensures ParseCallback(ChatPayload(kind, marked)) == Some(Callback(kind, marked, 0, 0, ""))
  {
    CutPayload(kind, FormatInt(marked));
    ParseFormat(marked);
  }

  lemma PatDelTailRoundTrip(marked: int, idx: int)
    requires Int64.Fits(marked) && Int64.Fits(idx)
    ensures ParsePatDel(Join(FormatInt(marked), FormatInt(idx))) == Some(Callback("patdel", marked, idx, 0, ""))
  {
    FormatHasNoColon(marked);
    CutPayload(FormatInt(marked), FormatInt(idx));
    ParseFormat(marked);
    ParseFormat(idx);
  }

  lemma PatDelRoundTrip(marked: int, idx: int)
    requires Int64.Fits(marked) && Int64.Fits(idx)
    ensures ParseCallback(PatDelPayload(marked, idx)) == Some(Callback("patdel", marked, idx, 0, ""))
  {
    CutPayload("patdel", Join(FormatInt(marked), FormatInt(idx)));
    assert "patdel" != "patadd" by { assert "patdel"[3] != "patadd"[3]; }
    PatDelTailRoundTrip(marked, idx);
  }

  /** Every payload a menu prints parses back to the very callback it was printed for. */
  lemma ParseOfPrint(c: Callback)
    requires Printable(c)
    ensures ParseCallback(Print(c)) == Some(c)
  {
    if c.kind == "page" {
      PageRoundTrip(c.page);
    } else if c.kind == "patdel" {
      PatDelRoundTrip(c.marked, c.idx);
    } else if c.kind == "patkind" {
      CutPayload("patkind", c.arg);
    } else {
      ChatRoundTrip(c.kind, c.marked);
    }
  }

  /**
   * The parser accepts nothing but printable callbacks, so re-printing an accepted payload (leading zeros
   * and plus signs included) and parsing again changes nothing.
   */
  lemma ReprintIsStable(data: string)
    requires ParseCallback(data).Some?
    ensures Printable(ParseCallback(data).value)
    ensures ParseCallback(data).value.kind in ["page", "chat", "ttl", "ttlclear", "pat", "patadd", "patkind", "patdel",
                                               "purge", "off"]
    ensures ParseCallback(Print(ParseCallback(data).value)) == ParseCallback(data)
  {
    ParseOfPrint(ParseCallback(data).value);
  }

  // ---------------------------------------------------------------- the payloads as the menus write them

  lemma ChatButtons(kind: string, marked: int)
    requires kind in ["chat", "ttl", "ttlclear", "pat", "patadd", "purge", "off"] && Int64.Fits(marked)
    ensures ParseCallback(kind + ":" + FormatInt(marked)) == Some(Callback(kind, marked, 0, 0, ""))
  {
    ChatRoundTrip(kind, marked);
  }

  lemma PageButtons(page: int)
    requires Int64.Fits(page)
    ensures ParseCallback("cfg:page:" + FormatInt(page)) == Some(Callback("page", 0, 0, page, ""))
  {
    PageRoundTrip(page);
    assert "cfg:page:" + FormatInt(page) == PagePayload(page);
  }

  lemma PatKindButtons(arg: string)
    ensures ParseCallback("patkind:" + arg) == if arg == "exact" || arg == "prefix"
                                               then Some(Callback("patkind", 0, 0, 0, arg)) else None
  {
    CutPayload("patkind", arg);
    assert "patkind:" + arg == Join("patkind", arg);
  }

  lemma PatDelButtons(marked: int, idx: int)
    requires Int64.Fits(marked) && Int64.Fits(idx)
    ensures ParseCallback("patdel:" + FormatInt(marked) + ":" + FormatInt(idx))
         == Some(Callback("patdel", marked, idx, 0, ""))
  {
    PatDelRoundTrip(marked, idx);
    assert "patdel:" + FormatInt(marked) + ":" + FormatInt(idx) == PatDelPayload(marked, idx);
  }

  /** Distinct callbacks never share a button payload. */
  lemma PrintInjective(c: Callback, d: Callback)
    requires Printable(c) && Printable(d)
    requires Print(c) == Print(d)
    ensures c == d
  {
    ParseOfPrint(c);
    ParseOfPrint(d);
  }
}
