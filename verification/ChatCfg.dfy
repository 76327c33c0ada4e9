/**
 * The per-chat configuration store: settings as values, the operations on them, and the store itself,
 * whose cached pattern slices live in heap arrays and whose bucket survives a restart.
 */
module ChatCfg {
  import opened Wrappers
  import opened Decimal
  import Int64
  import Text

  datatype Pattern = Pattern(value: string, exact: bool)

  /** What a configuration says, free of memory layout; also what one bucket entry decodes to. */
  datatype Settings = Settings(ttlMinutes: int, patterns: seq<Pattern>)

  type View = map<int, Settings>

  const NONE := Settings(0, [])

  function SettingsOf(view: View, chat: int): Settings {
    if chat in view then view[chat] else NONE
  }

  /** The message age threshold of a chat, as a duration. */
  function TtlOf(view: View, chat: int): int {
    Int64.Ttl(SettingsOf(view, chat).ttlMinutes)
  }

  /** What a chat is configured with: its own entry, or nothing at all. */
  lemma SettingsAre(view: View, chat: int)
    ensures chat in view ==> SettingsOf(view, chat) == view[chat]
    ensures chat !in view ==> SettingsOf(view, chat).ttlMinutes == 0 && SettingsOf(view, chat).patterns == []
  {}

  /** The threshold of a chat is its stored minutes, as long as they can be counted in 64 bits. */
  lemma TtlIsMinutes(view: View, chat: int)
    requires 0 <= SettingsOf(view, chat).ttlMinutes <= 153_722_867
    ensures TtlOf(view, chat) == SettingsOf(view, chat).ttlMinutes * 60_000_000_000
  {
    Int64.TtlExactIff(SettingsOf(view, chat).ttlMinutes);
  }

  // ---------------------------------------------------------------- pattern matching

  predicate Hits(p: Pattern, t: string) {
    p.value != "" && (if p.exact then t == p.value else Text.HasPrefix(t, p.value))
  }

  /** Some pattern hits the trimmed text, and the text is not blank. */
  predicate Matches(patterns: seq<Pattern>, text: string) {
    var t := Text.TrimSpace(text);
    t != "" && exists i :: 0 <= i < |patterns| && Hits(patterns[i], t)
  }

  /** One exact pattern matches a text that is the pattern once its ends are trimmed, and no other. */
  lemma ExactMatchesIff(v: string, text: string)
    ensures Matches([Pattern(v, true)], text) <==> v != "" && Text.TrimSpace(text) == v
  {
    assert Hits([Pattern(v, true)][0], Text.TrimSpace(text)) <==> v != "" && Text.TrimSpace(text) == v;
  }

  /** One prefix pattern matches a text that, trimmed, continues it, and no other. */
  lemma PrefixMatchesIff(v: string, text: string)
    ensures Matches([Pattern(v, false)], text) <==> v != "" && exists rest :: Text.TrimSpace(text) == v + rest
  {
    var t := Text.TrimSpace(text);
    if Matches([Pattern(v, false)], text) {
      assert Hits([Pattern(v, false)][0], t);
      assert t == v + t[|v|..];
    }
    if rest :| v != "" && t == v + rest {
      assert Hits([Pattern(v, false)][0], t);
    }
  }

  /** A list of patterns matches what one of them matches. */
  lemma MatchesAny(a: seq<Pattern>, b: seq<Pattern>, text: string)
    ensures Matches(a + b, text) <==> Matches(a, text) || Matches(b, text)
  {
    var t, c := Text.TrimSpace(text), a + b;
    assert forall i :: 0 <= i < |a| ==> c[i] == a[i];
    assert forall i :: 0 <= i < |b| ==> c[|a| + i] == b[i];
    if i :| 0 <= i < |c| && Hits(c[i], t) {
      assert if i < |a| then Hits(a[i], t) else Hits(b[i - |a|], t);
    }
    if i :| 0 <= i < |a| && Hits(a[i], t) {
      assert Hits(c[i], t);
    }
    if i :| 0 <= i < |b| && Hits(b[i], t) {
      assert Hits(c[|a| + i], t);
    }
  }

  /** The pattern loop with its early exits. */
  method MatchLoop(patterns: seq<Pattern>, text: string) returns (hit: bool)
    ensures hit <==> Matches(patterns, text)
  {
    var t := Text.TrimSpace(text);
    if t == "" {
      return false;
    }
    for i := 0 to |patterns|
      invariant forall j :: 0 <= j < i ==> !Hits(patterns[j], t)
    {
      var p := patterns[i];
      if p.value == "" {
        continue;
      }
      if p.exact {
        if t == p.value {
          return true;
        }
        continue;
      }
      if Text.HasPrefix(t, p.value) {
        return true;
      }
    }
    return false;
  }

  // ---------------------------------------------------------------- operations on values

  datatype Edit = SetMinutes(minutes: int) | Append(pattern: Pattern) | RemoveAt(index: int)

  function Apply(s: Settings, e: Edit): Settings {
    match e
    case SetMinutes(n) => s.(ttlMinutes := n)
    case Append(p) => s.(patterns := s.patterns + [p])
    case RemoveAt(i) =>
      if 0 <= i < |s.patterns| then s.(patterns := s.patterns[..i] + s.patterns[i + 1..]) else s
  }

  datatype Op =
    | SetTTL(chat: int, minutes: int)
    | AddPattern(chat: int, pattern: Pattern)
    | RemovePattern(chat: int, index: int)
    | Disable(chat: int)

  function Trim(p: Pattern): Pattern {
    p.(value := Text.TrimSpace(p.value))
  }

  /** What an operation does to the configuration when its transaction commits. */
  function Effect(view: View, op: Op): View {
    match op
    case SetTTL(chat, n) => view[chat := Apply(SettingsOf(view, chat), SetMinutes(if n < 0 then 0 else n))]
    case AddPattern(chat, p) =>
      if Trim(p).value == "" then view else view[chat := Apply(SettingsOf(view, chat), Append(Trim(p)))]
    case RemovePattern(chat, i) => view[chat := Apply(SettingsOf(view, chat), RemoveAt(i))]
    case Disable(chat) => view - {chat}
  }

  // What each operation leaves for the chat and for others, said of the settings alone.

  /** Every other chat is configured as before. */
  ghost predicate OthersKept(before: View, after: View, chat: int) {
    forall c :: c != chat ==> (c in after <==> c in before) && (c in before ==> after[c] == before[c])
  }

  ghost predicate MinutesSet(before: View, after: View, chat: int, minutes: int) {
    && OthersKept(before, after, chat) && chat in after
    && after[chat].ttlMinutes == (if minutes > 0 then minutes else 0)
    && after[chat].patterns == if chat in before then before[chat].patterns else []
  }

  ghost predicate PatternAdded(before: View, after: View, chat: int, p: Pattern) {
    && OthersKept(before, after, chat) && chat in after
    && after[chat].ttlMinutes == (if chat in before then before[chat].ttlMinutes else 0)
    && var was := if chat in before then before[chat].patterns else [];
    && |after[chat].patterns| == |was| + 1 && after[chat].patterns[..|was|] == was
    && after[chat].patterns[|was|].value == Text.TrimSpace(p.value) && after[chat].patterns[|was|].exact == p.exact
  }

  ghost predicate PatternRemoved(before: View, after: View, chat: int, i: int) {
    && OthersKept(before, after, chat) && chat in after
    && after[chat].ttlMinutes == (if chat in before then before[chat].ttlMinutes else 0)
    && var was := if chat in before then before[chat].patterns else [];
       var left := after[chat].patterns;
       if 0 <= i < |was| then
         && |left| == |was| - 1
         && (forall k :: 0 <= k < i ==> left[k] == was[k])
         && (forall k :: i <= k < |left| ==> left[k] == was[k + 1])
       else left == was
  }

  ghost predicate Disabled(before: View, after: View, chat: int) {
    OthersKept(before, after, chat) && chat !in after
  }

  /** Each operation does what its name says. */
  lemma EffectsAre(view: View, chat: int, minutes: int, p: Pattern, i: int)
    ensures MinutesSet(view, Effect(view, SetTTL(chat, minutes)), chat, minutes)
    ensures if Text.TrimSpace(p.value) == "" then Effect(view, AddPattern(chat, p)) == view
            else PatternAdded(view, Effect(view, AddPattern(chat, p)), chat, p)
    ensures PatternRemoved(view, Effect(view, RemovePattern(chat, i)), chat, i)
    ensures Disabled(view, Effect(view, Disable(chat)), chat)
  {
    RemovalIs(view, chat, i);
  }

  lemma RemovalIs(view: View, chat: int, i: int)
    ensures PatternRemoved(view, Effect(view, RemovePattern(chat, i)), chat, i)
  {}

  /** A run of operations of which exactly those with a committing transaction take effect. */
  function Run(view: View, ops: seq<(Op, bool)>): View
    decreases |ops|
  {
    if ops == [] then view
    else
      var before := Run(view, ops[..|ops| - 1]);
      var (op, commits) := ops[|ops| - 1];
      if commits then Effect(before, op) else before
  }

  /** Usable settings: a non-negative TTL and patterns that are trimmed and not blank. */
  predicate CleanSettings(s: Settings) {
    && s.ttlMinutes >= 0
    && forall i :: 0 <= i < |s.patterns| ==> s.patterns[i].value != "" && Text.Trimmed(s.patterns[i].value)
  }

  ghost predicate Clean(view: View) {
    forall chat :: chat in view ==> CleanSettings(view[chat])
  }

  lemma EffectKeepsClean(view: View, op: Op)
    requires Clean(view)
    ensures Clean(Effect(view, op))
  {
    if op.AddPattern? {
      Text.TrimSpaceIsTrimmed(op.pattern.value);
    }
  }

  /** Starting empty, whatever is stored after any run is clean. */
  lemma {:induction false} RunKeepsClean(view: View, ops: seq<(Op, bool)>)
    requires Clean(view)
    ensures Clean(Run(view, ops))
    decreases |ops|
  {
    if ops != [] {
      RunKeepsClean(view, ops[..|ops| - 1]);
      EffectKeepsClean(Run(view, ops[..|ops| - 1]), ops[|ops| - 1].0);
    }
  }

  /** A stored pattern is live: its own text, with any white space around it, is matched from then on. */
  lemma AddedPatternMatches(view: View, chat: int, p: Pattern, left: string, right: string)
    requires Trim(p).value != ""
    requires Text.AllSpace(left) && Text.AllSpace(right)
    ensures var after := SettingsOf(Effect(view, AddPattern(chat, p)), chat).patterns;
            Matches(after, left + Trim(p).value + right)
  {
    var v := Trim(p).value;
    Text.TrimSpaceIsTrimmed(p.value);
    Text.TrimSpaceDropsPadding(left, v, right);
    var after := SettingsOf(Effect(view, AddPattern(chat, p)), chat).patterns;
    assert Hits(after[|after| - 1], v);
  }

  /** An operation changes its own chat only. */
  lemma EffectIsLocal(view: View, op: Op, other: int)
    requires other != op.chat
    ensures SettingsOf(Effect(view, op), other) == SettingsOf(view, other)
  {}

  /** Removing the pattern just added undoes the addition. */
  lemma RemoveUndoesAdd(view: View, chat: int, p: Pattern)
    requires Trim(p).value != ""
    ensures var added := Effect(view, AddPattern(chat, p));
            SettingsOf(Effect(added, RemovePattern(chat, |SettingsOf(view, chat).patterns|)), chat)
            == SettingsOf(view, chat)
  {
    var was := SettingsOf(view, chat).patterns;
    assert (was + [Trim(p)])[..|was|] + (was + [Trim(p)])[|was| + 1..] == was;
  }

  // ---------------------------------------------------------------- the bucket

  /** One bucket value: an encoded configuration, or bytes that do not decode. */
  datatype Record = Json(settings: Settings) | Garbage

  type Bucket = map<string, Record>

  /** The bucket holds the given configuration: one entry per chat under its printed id, and nothing else. */
  ghost predicate Encodes(bucket: Bucket, view: View) {
    && (forall chat :: chat in view ==> Int64.Fits(chat) && FormatInt(chat) in bucket)
    && (forall k :: k in bucket ==> exists chat :: chat in view && k == FormatInt(chat))
    && (forall chat :: chat in view ==> bucket[FormatInt(chat)] == Json(view[chat]))
  }

  lemma EncodesPut(bucket: Bucket, view: View, chat: int, s: Settings)
    requires Encodes(bucket, view) && Int64.Fits(chat)
    ensures Encodes(bucket[FormatInt(chat) := Json(s)], view[chat := s])
  {
    var b, v := bucket[FormatInt(chat) := Json(s)], view[chat := s];
    forall c | c in v ensures FormatInt(c) in b && b[FormatInt(c)] == Json(v[c]) {
      if FormatInt(c) == FormatInt(chat) {
        FormatInjective(c, chat);
      }
    }
    forall k | k in b ensures exists c :: c in v && k == FormatInt(c) {
      if k == FormatInt(chat) {
        assert chat in v;
      } else {
        var c :| c in view && k == FormatInt(c);
        assert c in v;
      }
    }
  }

  lemma EncodesDelete(bucket: Bucket, view: View, chat: int)
    requires Encodes(bucket, view)
    ensures Encodes(bucket - {FormatInt(chat)}, view - {chat})
  {
    var b, v := bucket - {FormatInt(chat)}, view - {chat};
    forall c | c in v ensures FormatInt(c) in b {
      if FormatInt(c) == FormatInt(chat) {
        FormatInjective(c, chat);
      }
    }
    forall k | k in b ensures exists c :: c in v && k == FormatInt(c) {
      var c :| c in view && k == FormatInt(c);
      assert c in v;
    }
  }

  /** The bucket determines the configuration it encodes. */
  lemma EncodingIsUnique(bucket: Bucket, v: View, w: View)
    requires Encodes(bucket, v) && Encodes(bucket, w)
    ensures v == w
  {
    forall chat | chat in v ensures chat in w && v[chat] == w[chat] {
      var c :| c in w && FormatInt(chat) == FormatInt(c);
      FormatInjective(chat, c);
      assert Json(v[chat]) == Json(w[chat]);
    }
    forall chat | chat in w ensures chat in v {
      var c :| c in v && FormatInt(chat) == FormatInt(c);
      FormatInjective(chat, c);
    }
  }

  // ---------------------------------------------------------------- slices and the store

  /** A slice: a heap array and the length in use; the nil slice has no array. */
  datatype Slice = Slice(arr: array?<Pattern>, len: nat) {
    ghost predicate Valid()
    {
      if arr == null then len == 0 else len <= arr.Length
    }

    ghost function Elements(): seq<Pattern>
      requires Valid()
      reads arr
    {
      if arr == null then [] else arr[..len]
    }
  }

  /** A configuration as the program holds it. */
  datatype Config = Config(ttlMinutes: int, patterns: Slice) {
    ghost function Value(): Settings
      requires patterns.Valid()
      reads patterns.arr
    {
      Settings(ttlMinutes, patterns.Elements())
    }
  }

  const EMPTY := Config(0, Slice(null, 0))

  /** Copies the patterns into an array of their own; an empty list becomes the nil slice. */
  method Clone(c: Config) returns (d: Config)
    requires c.patterns.Valid()
    ensures d.patterns.Valid() && d.Value() == c.Value()
    ensures d.patterns.arr != null ==> fresh(d.patterns.arr)
  {
    if c.patterns.len == 0 {
      return Config(c.ttlMinutes, Slice(null, 0));
    }
    var n := c.patterns.len;
    var p := new Pattern[n];
    for i := 0 to n
      invariant forall j :: 0 <= j < i ==> p[j] == c.patterns.arr[j]
    {
      p[i] := c.patterns.arr[i];
    }
    assert p[..n] == c.patterns.arr[..n];
    d := Config(c.ttlMinutes, Slice(p, n));
  }

  /** Appends in place when the array has room, and otherwise into a larger array. */
  method AppendTo(s: Slice, p: Pattern) returns (t: Slice)
    requires s.Valid()
    modifies s.arr
    ensures t.Valid() && t.Elements() == old(s.Elements()) + [p]
    ensures t.arr != null && (t.arr == s.arr || fresh(t.arr))
  {
    if s.arr != null && s.len < s.arr.Length {
      s.arr[s.len] := p;
      return Slice(s.arr, s.len + 1);
    }
    var capacity: nat :| capacity > s.len;
    var grown := new Pattern[capacity];
    for i := 0 to s.len
      invariant s.Valid() && s.Elements() == old(s.Elements())
      invariant forall j :: 0 <= j < i ==> grown[j] == s.arr[j]
      modifies grown
    {
      grown[i] := s.arr[i];
    }
    grown[s.len] := p;
    assert grown[..s.len + 1] == old(s.Elements()) + [p];
    t := Slice(grown, s.len + 1);
  }

  /** Removes one element by moving the tail down inside the same array. */
  method ShiftOut(s: Slice, i: int) returns (t: Slice)
    requires s.Valid() && 0 <= i < s.len
    modifies s.arr
    ensures t.Valid() && t.arr == s.arr
    ensures t.Elements() == old(s.Elements())[..i] + old(s.Elements())[i + 1..]
  {
    for j := i to s.len - 1
      invariant forall k :: 0 <= k < i ==> s.arr[k] == old(s.arr[k])
      invariant forall k :: i <= k < j ==> s.arr[k] == old(s.arr[k + 1])
      invariant forall k :: j <= k < s.len ==> s.arr[k] == old(s.arr[k])
    {
      s.arr[j] := s.arr[j + 1];
    }
    t := Slice(s.arr, s.len - 1);
    Shifted(old(s.Elements()), t.Elements(), i);
  }

  lemma Shifted(was: seq<Pattern>, now: seq<Pattern>, i: nat)
    requires i < |was| == |now| + 1
    requires forall k :: 0 <= k < i ==> now[k] == was[k]
    requires forall k :: i <= k < |now| ==> now[k] == was[k + 1]
    ensures now == was[..i] + was[i + 1..]
  {}

  method ApplyInPlace(c: Config, e: Edit) returns (d: Config)
    requires c.patterns.Valid()
    modifies c.patterns.arr
    ensures d.patterns.Valid() && d.Value() == Apply(old(c.Value()), e)
    ensures d.patterns.arr == c.patterns.arr || (d.patterns.arr != null && fresh(d.patterns.arr))
  {
    match e {
      case SetMinutes(n) =>
        d := Config(n, c.patterns);
      case Append(p) =>
        var s := AppendTo(c.patterns, p);
        d := Config(c.ttlMinutes, s);
      case RemoveAt(i) =>
        d := c;
        if 0 <= i < c.patterns.len {
          var s := ShiftOut(c.patterns, i);
          d := Config(c.ttlMinutes, s);
        }
    }
  }

  class Store {
    var bucket: Bucket
    var cache: map<int, Config>

    /** The arrays the cached configurations live in. */
    ghost function Arrays(): set<object>
      reads this
    {
      set chat | chat in cache && cache[chat].patterns.arr != null :: cache[chat].patterns.arr as object
    }

    ghost predicate Shaped()
      reads this
    {
      forall chat :: chat in cache ==> cache[chat].patterns.Valid()
    }

    ghost function Cached(): View
      requires Shaped()
      reads this, Arrays()
    {
      map chat | chat in cache :: cache[chat].Value()
    }

    /** The cache says exactly what is on disk. */
    ghost predicate Valid()
      reads this, Arrays()
    {
      Shaped() && Encodes(bucket, Cached())
    }

    /** Opens an empty database. */
    constructor ()
      ensures Valid() && Cached() == map[]
    {
      bucket, cache := map[], map[];
    }

    /** Rebuilds the cache from what loading produced. */
    constructor Loaded(bucket: Bucket, cache: map<int, Config>)
      requires forall chat :: chat in cache ==> cache[chat].patterns.Valid()
      ensures this.bucket == bucket && this.cache == cache
    {
      this.bucket, this.cache := bucket, cache;
    }

    method Get(chat: int) returns (c: Config)
      requires Valid()
      ensures c.patterns.Valid() && c.Value() == SettingsOf(Cached(), chat)
      ensures chat in cache ==> c.Value() == Cached()[chat]
      ensures chat !in cache ==> c.ttlMinutes == 0 && c.patterns.len == 0
      ensures c.patterns.arr != null ==> fresh(c.patterns.arr)
    {
      c := Clone(if chat in cache then cache[chat] else EMPTY);
    }

    /** A copy of every configuration, in arrays no one else holds. */
    method List() returns (out: map<int, Config>)
      requires Valid()
      ensures out.Keys == cache.Keys
      ensures forall chat :: chat in out ==> out[chat].patterns.Valid() && out[chat].Value() == Cached()[chat]
      ensures forall chat :: chat in out && out[chat].patterns.arr != null ==> fresh(out[chat].patterns.arr)
    {
      out := map[];
      var rest := cache.Keys;
      while rest != {}
        invariant rest <= cache.Keys && out.Keys == cache.Keys - rest
        invariant forall chat :: chat in out ==> out[chat].patterns.Valid() && out[chat].Value() == Cached()[chat]
        invariant forall chat :: chat in out && out[chat].patterns.arr != null ==> fresh(out[chat].patterns.arr)
      {
        var chat := AnyOf(rest);
        var c := Clone(cache[chat]);
        out := out[chat := c];
        rest := rest - {chat};
      }
    }

    /**
     * Clones, edits the clone, writes the bucket, and only then replaces the cached value. No array that
     * existed before the call is written, so every configuration handed out earlier stays as it was.
     */
    method Mutate(chat: int, e: Edit, commits: bool) returns (ok: bool)
      requires Valid() && Int64.Fits(chat)
      modifies this
      ensures Valid() && ok == commits
      ensures Cached() == if commits then old(Cached())[chat := Apply(SettingsOf(old(Cached()), chat), e)]
                          else old(Cached())
      ensures forall a :: a in Arrays() ==> a in old(Arrays()) || fresh(a)
    {
      var clone := Clone(if chat in cache then cache[chat] else EMPTY);
      var edited := ApplyInPlace(clone, e);
      FrameCached();
      if !commits {
        return false;
      }
      Commit(chat, edited);
      ok := true;
    }

    /** The configuration depends on nothing but the fields and the cached arrays. */
    twostate lemma FrameCached()
      requires old(Valid()) && unchanged(this)
      requires forall a: array<Pattern> :: a in old(Arrays()) ==> unchanged(a)
      ensures Valid() && Cached() == old(Cached()) && Arrays() == old(Arrays())
    {
      forall chat | chat in cache ensures cache[chat].Value() == old(cache[chat].Value()) {
        if cache[chat].patterns.arr != null {
          assert cache[chat].patterns.arr in old(Arrays());
        }
      }
      assert Cached() == old(Cached());
    }

    /** The transaction went through: bucket and cache take the edited configuration together. */
    method Commit(chat: int, c: Config)
      requires Valid() && Int64.Fits(chat) && c.patterns.Valid()
      modifies this
      ensures Valid() && Cached() == old(Cached())[chat := c.Value()]
      ensures forall a :: a in Arrays() ==> a in old(Arrays()) || a == c.patterns.arr
    {
      var value := Settings(c.ttlMinutes, if c.patterns.arr == null then [] else c.patterns.arr[..c.patterns.len]);
      EncodesPut(bucket, Cached(), chat, value);
      bucket := bucket[FormatInt(chat) := Json(value)];
      cache := cache[chat := c];
      forall x | x in cache ensures cache[x].Value() == old(Cached())[chat := value][x] {
        assert x != chat ==> cache[x] == old(cache[x]);
      }
      assert Cached() == old(Cached())[chat := value];
    }

    method SetTTL(chat: int, minutes: int, commits: bool) returns (ok: bool)
      requires Valid() && Int64.Fits(chat)
      modifies this
      ensures Valid() && ok == commits
      ensures Cached() == if ok then Effect(old(Cached()), Op.SetTTL(chat, minutes)) else old(Cached())
      ensures ok ==> MinutesSet(old(Cached()), Cached(), chat, minutes)
      ensures forall a :: a in Arrays() ==> a in old(Arrays()) || fresh(a)
    {
      var n := if minutes < 0 then 0 else minutes;
      ok := Mutate(chat, SetMinutes(n), commits);
    }

    /** A blank pattern is refused before any transaction starts. */
    method AddPattern(chat: int, p: Pattern, commits: bool) returns (ok: bool)
      requires Valid() && Int64.Fits(chat)
      modifies this
      ensures Valid() && ok == (commits && Trim(p).value != "")
      ensures Cached() == if ok then Effect(old(Cached()), Op.AddPattern(chat, p)) else old(Cached())
      ensures ok ==> PatternAdded(old(Cached()), Cached(), chat, p)
      ensures forall a :: a in Arrays() ==> a in old(Arrays()) || fresh(a)
    {
      var trimmed := Trim(p);
      if trimmed.value == "" {
        return false;
      }
      ok := Mutate(chat, Append(trimmed), commits);
    }

    method RemovePattern(chat: int, i: int, commits: bool) returns (ok: bool)
      requires Valid() && Int64.Fits(chat)
      modifies this
      ensures Valid() && ok == commits
      ensures Cached() == if ok then Effect(old(Cached()), Op.RemovePattern(chat, i)) else old(Cached())
      ensures ok ==> PatternRemoved(old(Cached()), Cached(), chat, i)
      ensures forall a :: a in Arrays() ==> a in old(Arrays()) || fresh(a)
    {
      RemovalIs(Cached(), chat, i);
      ok := Mutate(chat, RemoveAt(i), commits);
    }

    method Disable(chat: int, commits: bool) returns (ok: bool)
      requires Valid()
      modifies this
      ensures Valid() && ok == commits
      ensures Cached() == if ok then Effect(old(Cached()), Op.Disable(chat)) else old(Cached())
      ensures ok ==> Disabled(old(Cached()), Cached(), chat)
      ensures forall a :: a in Arrays() ==> a in old(Arrays()) || fresh(a)
    {
      if !commits {
        return false;
      }
      EncodesDelete(bucket, Cached(), chat);
      bucket := bucket - {FormatInt(chat)};
      cache := cache - {chat};
      forall c | c in cache ensures cache[c].Value() == old(Cached())[c] {}
      assert Cached() == old(Cached()) - {chat};
      ok := true;
    }

    method Perform(op: Op, commits: bool)
      requires Valid() && Int64.Fits(op.chat)
      modifies this
      ensures Valid()
      ensures Cached() == if commits then Effect(old(Cached()), op) else old(Cached())
      ensures forall a :: a in Arrays() ==> a in old(Arrays()) || fresh(a)
    {
      match op {
        case SetTTL(chat, n) => var ok := SetTTL(chat, n, commits);
        case AddPattern(chat, p) => var ok := AddPattern(chat, p, commits);
        case RemovePattern(chat, i) => var ok := RemovePattern(chat, i, commits);
        case Disable(chat) => var ok := Disable(chat, commits);
      }
    }

    /** Any run of operations under any pattern of failing transactions keeps the cache and the disk equal. */
    method PerformAll(ops: seq<(Op, bool)>)
      requires Valid() && forall i :: 0 <= i < |ops| ==> Int64.Fits(ops[i].0.chat)
      modifies this
      ensures Valid() && Cached() == Run(old(Cached()), ops)
      ensures forall a :: a in Arrays() ==> a in old(Arrays()) || fresh(a)
    {
      assert ops[..0] == [];
      for i := 0 to |ops|
        invariant Valid() && Cached() == Run(old(Cached()), ops[..i])
        invariant forall a :: a in Arrays() ==> a in old(Arrays()) || fresh(a)
      {
        assert ops[..i + 1][..i] == ops[..i];
        Perform(ops[i].0, ops[i].1);
      }
      assert ops[..|ops|] == ops;
    }
  }

  datatype LoadError = BadKey(key: string) | BadValue(key: string)

  /** Loading accepts exactly the buckets whose keys are all integers and whose values all decode. */
  predicate Loadable(bucket: Bucket) {
    forall k :: k in bucket ==> ParseInt(k).Some? && bucket[k].Json?
  }

  /** Allocates the patterns of a decoded value. */
  method Decode(s: Settings) returns (c: Config)
    ensures c.patterns.Valid() && c.Value() == s
    ensures c.patterns.arr != null ==> fresh(c.patterns.arr)
  {
    if s.patterns == [] {
      return Config(s.ttlMinutes, Slice(null, 0));
    }
    var arr := new Pattern[|s.patterns|];
    for i := 0 to |s.patterns|
      invariant arr[..i] == s.patterns[..i]
    {
      arr[i] := s.patterns[i];
      assert arr[..i + 1] == arr[..i] + [s.patterns[i]] == s.patterns[..i + 1];
    }
    c := Config(s.ttlMinutes, Slice(arr, |s.patterns|));
  }

  /** Opens a store over an existing bucket, visiting its entries in any order. */
  method Open(bucket: Bucket) returns (r: Result<Store, LoadError>)
    ensures r.Ok? <==> Loadable(bucket)
    ensures r.Ok? ==> fresh(r.value) && r.value.bucket == bucket
    ensures r.Ok? ==> forall view :: Encodes(bucket, view) ==> r.value.Valid() && r.value.Cached() == view
  {
    var cache: map<int, Config> := map[];
    ghost var read: View, source: map<int, string> := map[], map[];
    var rest := bucket.Keys;
    while rest != {}
      invariant rest <= bucket.Keys && ReadOff(bucket, rest, read, source)
      invariant cache.Keys == read.Keys
      invariant forall chat :: chat in cache ==> cache[chat].patterns.Valid() && cache[chat].Value() == read[chat]
    {
      var k := AnyOf(rest);
      match ParseInt(k) {
        case None =>
          return Err(BadKey(k));
        case Some(id) =>
          match bucket[k] {
            case Garbage =>
              return Err(BadValue(k));
            case Json(s) =>
              var c := Decode(s);
              ReadOne(bucket, rest, read, source, k, id, s);
              cache := cache[id := c];
              read, source := read[id := s], source[id := k];
              rest := rest - {k};
          }
      }
    }
    var store := new Store.Loaded(bucket, cache);
    forall chat | chat in cache ensures store.cache[chat].Value() == read[chat] {}
    assert store.Cached() == read;
    forall view | Encodes(bucket, view) ensures read == view {
      LoadedView(bucket, view, read, source);
    }
    r := Ok(store);
  }

  /** What loading has read so far: each chat's settings and the key they came from. */
  ghost predicate ReadOff(bucket: Bucket, rest: set<string>, read: View, source: map<int, string>) {
    && source.Keys == read.Keys
    && (forall chat :: chat in read ==> source[chat] in bucket && ParseInt(source[chat]) == Some(chat))
    && (forall chat :: chat in read ==> bucket[source[chat]] == Json(read[chat]))
    && (forall k :: k in bucket && k !in rest ==>
                      ParseInt(k).Some? && bucket[k].Json? && ParseInt(k).value in read)
  }

  lemma ReadOne(bucket: Bucket, rest: set<string>, read: View, source: map<int, string>, k: string, id: int,
                s: Settings)
    requires ReadOff(bucket, rest, read, source)
    requires k in bucket && ParseInt(k) == Some(id) && bucket[k] == Json(s)
    ensures ReadOff(bucket, rest - {k}, read[id := s], source[id := k])
  {}

  /** A value read off a key of the bucket is the one encoded under that key. */
  lemma ReadIsEncoded(bucket: Bucket, view: View, key: string, chat: int, s: Settings)
    requires Encodes(bucket, view) && key in bucket && bucket[key] == Json(s) && ParseInt(key) == Some(chat)
    ensures chat in view && view[chat] == s
  {
    var c :| c in view && key == FormatInt(c);
    ParseFormat(c);
  }

  /** An encoded chat has a key in the bucket that parses to it. */
  lemma EncodedHasKey(bucket: Bucket, view: View, chat: int) returns (key: string)
    requires Encodes(bucket, view) && chat in view
    ensures key in bucket && ParseInt(key) == Some(chat)
  {
    key := FormatInt(chat);
    ParseFormat(chat);
  }

  lemma KeyIsRead(bucket: Bucket, read: View, source: map<int, string>, key: string, chat: int)
    requires ReadOff(bucket, {}, read, source) && key in bucket && ParseInt(key) == Some(chat)
    ensures chat in read
  {}

  /** What was read off the bucket key by key is encoded in it. */
  lemma ReadIsPart(bucket: Bucket, view: View, read: View, source: map<int, string>, chat: int)
    requires Encodes(bucket, view) && ReadOff(bucket, {}, read, source) && chat in read
    ensures chat in view && read[chat] == view[chat]
  {
    ReadIsEncoded(bucket, view, source[chat], chat, read[chat]);
  }

  /** When every key has been read, every encoded chat has. */
  lemma PartIsRead(bucket: Bucket, view: View, read: View, source: map<int, string>, chat: int)
    requires Encodes(bucket, view) && ReadOff(bucket, {}, read, source) && chat in view
    ensures chat in read
  {
    var key := EncodedHasKey(bucket, view, chat);
    KeyIsRead(bucket, read, source, key, chat);
  }

  /** A cache read off the bucket key by key is the encoded configuration. */
  lemma LoadedView(bucket: Bucket, view: View, read: View, source: map<int, string>)
    requires Encodes(bucket, view) && ReadOff(bucket, {}, read, source)
    ensures read == view
  {
    SameChats(bucket, view, read, source);
    forall chat | chat in read ensures chat in view && read[chat] == view[chat] {
      ReadIsPart(bucket, view, read, source, chat);
    }
  }

  lemma SameChats(bucket: Bucket, view: View, read: View, source: map<int, string>)
    requires Encodes(bucket, view) && ReadOff(bucket, {}, read, source)
    ensures read.Keys == view.Keys
  {
    forall chat ensures chat in read.Keys <==> chat in view.Keys {
      if chat in read {
        ReadIsPart(bucket, view, read, source, chat);
      } else if chat in view {
        PartIsRead(bucket, view, read, source, chat);
      }
    }
  }

  /** Stopping and starting again is invisible: the reopened store answers exactly like the old one. */
  method Reopen(s: Store) returns (r: Result<Store, LoadError>)
    requires s.Valid()
    ensures r.Ok? && r.value.Valid() && r.value.Cached() == s.Cached()
  {
    ghost var view := s.Cached();
    forall k | k in s.bucket ensures ParseInt(k).Some? && s.bucket[k].Json? {
      var c :| c in view && k == FormatInt(c);
      ParseFormat(c);
    }
    r := Open(s.bucket);
    s.FrameCached();
    assert Encodes(r.value.bucket, view);
  }

  /** A configuration read once keeps its value through any later run of operations on the store. */
  method SnapshotSurvives(s: Store, chat: int, ops: seq<(Op, bool)>) returns (taken: Config)
    requires s.Valid() && forall i :: 0 <= i < |ops| ==> Int64.Fits(ops[i].0.chat)
    modifies s
    ensures taken.patterns.Valid() && taken.Value() == SettingsOf(old(s.Cached()), chat)
    ensures taken.patterns.arr != null ==> taken.patterns.arr !in s.Arrays()
    ensures s.Valid() && s.Cached() == Run(old(s.Cached()), ops)
  {
    taken := s.Get(chat);
    s.FrameCached();
    ghost var value := taken.Value();
    s.PerformAll(ops);
    assert taken.Value() == value;
  }

  /** Overwriting a slice the store handed out never shows in the store. */
  method Scribble(s: Store, arr: array<Pattern>, values: seq<Pattern>)
    requires s.Valid() && arr !in s.Arrays() && |values| <= arr.Length
    modifies arr
    ensures arr[..|values|] == values
    ensures s.Valid() && s.Cached() == old(s.Cached())
  {
    for i := 0 to |values|
      invariant arr[..i] == values[..i]
    {
      arr[i] := values[i];
      assert arr[..i + 1] == arr[..i] + [values[i]];
    }
    s.FrameCached();
  }
}
