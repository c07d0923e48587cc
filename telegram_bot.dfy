/** One run of scraper/telegram_bot.py: read the channel and the persisted
    cursor, pick the next course of the catalog, announce it on the channel,
    and only then move the cursor on by one. */
module TelegramBot {
  import opened Wrappers
  import PyStrings

  // ---------------------------------------------------------------------
  // Data model
  // ---------------------------------------------------------------------

  /** One entry of the course catalog, reduced to the keys the bot reads
      with `course.get(...)`; a key missing from the JSON object is None. */
  datatype Course = Course(
    name: Option<string>,
    description: Option<string>,
    url: Option<string>,
    image: Option<string>)

  /** What the cursor file holds between runs: no file at all, a file whose
      stripped text `int(...)` accepts, or one it rejects. */
  datatype CursorFile = Missing | Number(n: int) | Unparsable

  /** How the single call to the chat service ends: it returns, or it raises. */
  datatype Delivery = Delivered | Raised

  /** The one chat-service call a run makes. */
  datatype Request =
    | SendPhoto(chatId: string, photo: string, caption: string)
    | SendMessage(chatId: string, text: string)

  /** How a run ends. `CursorUnreadable` and `IndexError` are the two ways
      the script itself raises before any send; `index` is the catalog
      position of the course that was announced or attempted. */
  datatype Outcome =
    | NoChannel
    | CursorUnreadable
    | NothingNew
    | IndexError
    | Sent(index: nat, request: Request)
    | SendFailed(index: nat, request: Request)

  // ---------------------------------------------------------------------
  // Loading the persisted inputs
  // ---------------------------------------------------------------------

  /** `load_channel()`: the stripped text of the channel file, None when
      there is no file. */
  function LoadChannel(file: Option<string>): Option<string> {
    match file
    case None => None
    case Some(text) => Some(PyStrings.Strip(text))
  }

  /** The `if not channel` test of `main()`: a channel is set when it is
      present and not the empty string. */
  predicate HasChannel(channel: Option<string>) {
    channel.Some? && channel.value != []
  }

  /** A channel is set exactly when the channel file exists and holds
      something other than whitespace; it then has no whitespace at either
      end, and the file held it with only whitespace around it. */
  lemma LoadChannelSet(file: Option<string>)
    ensures HasChannel(LoadChannel(file)) <==> file.Some? && !PyStrings.Blank(file.value)
    ensures HasChannel(LoadChannel(file)) ==>
      var ch := LoadChannel(file).value;
      !PyStrings.IsSpace(ch[0]) && !PyStrings.IsSpace(ch[|ch| - 1])
      && ch <= file.value[|file.value| - |PyStrings.LStrip(file.value)|..]
  {
    if file.Some? {
      PyStrings.StripEmptyIffBlank(file.value);
    }
  }

  /** `load_last_sent()`: 0 when there is no file, the stored number
      otherwise; None stands for the `ValueError` that `int(...)` raises on
      text that is not a number. */
  function LoadLastSent(file: CursorFile): (last: Option<int>)
    ensures last.None? <==> file.Unparsable?
    ensures file.Missing? ==> last == Some(0)
    ensures file.Number? ==> last == Some(file.n)
  {
    match file
    case Missing => Some(0)
    case Number(n) => Some(n)
    case Unparsable => None
  }

  /** `load_courses()`: the catalog, or the empty list when there is no file. */
  function LoadCourses(file: Option<seq<Course>>): (courses: seq<Course>)
    ensures file.None? ==> courses == []
    ensures file.Some? ==> courses == file.value
  {
    file.GetOr([])
  }

  /** A cursor file the bot itself could have written (or none at all):
      `save_last_sent` is only ever called with `last + 1` for a `last`
      that indexed the catalog. */
  predicate Reachable(file: CursorFile) {
    file.Missing? || (file.Number? && file.n >= 0)
  }

  // ---------------------------------------------------------------------
  // Selecting the next course
  // ---------------------------------------------------------------------

  datatype Selection = NoneLeft | OutOfRange | At(index: nat)

  /** The guard `last >= len(courses)` and the lookup `courses[last]` with
      Python's indexing, where a negative index counts from the end and one
      below `-len` raises `IndexError`. */
  function Select(last: int, n: nat): (sel: Selection)
    ensures sel.NoneLeft? <==> last >= n
    ensures sel.OutOfRange? <==> last + n < 0
    ensures sel.At? ==> sel.index < n && (sel.index - last) % n == 0
    ensures sel.At? && last >= 0 ==> sel.index == last
  {
    if last >= n then NoneLeft
    else if last >= 0 then At(last)
    else if last + n >= 0 then At(last + n)
    else OutOfRange
  }

  // ---------------------------------------------------------------------
  // The announcement text
  // ---------------------------------------------------------------------

  /** What an f-string shows for a key the course lacks (Python formats
      the None that `get` returns). */
  const AbsentField: string := "None"

  const Header: string := "\U{1F4DA} *"
  const NameClose: string := "*\n\n"
  const LinkOpen: string := "\n\n[Enroll Here]("
  const LinkClose: string := ")"

  function Show(field: Option<string>): string {
    field.GetOr(AbsentField)
  }

  /** The three values the announcement shows, in display order. */
  datatype Shown = Shown(name: string, description: string, url: string)

  function Fields(c: Course): Shown {
    Shown(Show(c.name), Show(c.description), Show(c.url))
  }

  function Announcement(f: Shown): string {
    Header + f.name + NameClose + f.description + LinkOpen + f.url + LinkClose
  }

  /** The Markdown text the bot posts for a course: a bold name, the
      description, then an "Enroll Here" link to the course's url. */
  function Caption(c: Course): string {
    Announcement(Fields(c))
  }

  /** Position of the first `c` in `s`, or `|s|` when there is none. */
  function FirstIndexOf(s: string, c: char): (k: nat)
    ensures k <= |s|
    ensures forall i :: 0 <= i < k ==> s[i] != c
    ensures k < |s| ==> s[k] == c
    decreases |s|
  {
    if s == [] || s[0] == c then 0 else 1 + FirstIndexOf(s[1..], c)
  }

  /** Position of the last `c` in `s`, or -1 when there is none. */
  function LastIndexOf(s: string, c: char): (k: int)
    ensures -1 <= k < |s|
    ensures forall i :: k < i < |s| ==> s[i] != c
    ensures k >= 0 ==> s[k] == c
    decreases |s|
  {
    if s == [] then -1
    else if s[|s| - 1] == c then |s| - 1
    else LastIndexOf(s[..|s| - 1], c)
  }

  predicate StartsWith(s: string, p: string) {
    |p| <= |s| && s[..|p|] == p
  }

  predicate EndsWith(s: string, p: string) {
    |p| <= |s| && s[|s| - |p|..] == p
  }

  /** Splits `name + NameClose + rest` at the first `*`. */
  function SplitName(s: string): Option<(string, string)> {
    var i := FirstIndexOf(s, '*');
    if StartsWith(s[i..], NameClose) then Some((s[..i], s[i + |NameClose|..])) else None
  }

  /** Splits `description + LinkOpen + url + LinkClose` at the last `(`. */
  function SplitLink(s: string): Option<(string, string)> {
    if !EndsWith(s, LinkClose) then None
    else
      var inner := s[..|s| - |LinkClose|];
      var j := LastIndexOf(inner, '(');
      var before := inner[..j + 1];
      if EndsWith(before, LinkOpen) then Some((before[..|before| - |LinkOpen|], inner[j + 1..]))
      else None
  }

  /** Reads the shown fields back out of an announcement: the name runs up to
      the first `*` after the header, the url back to the last `(`. */
  function ParseAnnouncement(t: string): Option<Shown> {
    if !StartsWith(t, Header) then None
    else
      match SplitName(t[|Header|..])
      case None => None
      case Some((name, rest)) =>
        match SplitLink(rest)
        case None => None
        case Some((description, url)) => Some(Shown(name, description, url))
  }

  lemma SplitNameRoundTrip(name: string, rest: string)
    requires '*' !in name
    ensures SplitName(name + NameClose + rest) == Some((name, rest))
  {
    var s := name + NameClose + rest;
    assert s[|name|] == NameClose[0] == '*';
    assert forall m :: 0 <= m < |name| ==> s[m] == name[m];
    assert FirstIndexOf(s, '*') == |name|;
    assert s[|name|..] == NameClose + rest;
    assert s[..|name|] == name;
    assert s[|name| + |NameClose|..] == rest;
  }

  lemma SplitNameSound(s: string)
    requires SplitName(s).Some?
    ensures var (name, rest) := SplitName(s).value;
      s == name + NameClose + rest && '*' !in name
  {
    var i := FirstIndexOf(s, '*');
    assert s[i..] == NameClose + s[i + |NameClose|..];
    assert s == s[..i] + s[i..];
    assert forall m :: 0 <= m < i ==> s[..i][m] == s[m];
  }

  lemma SplitLinkRoundTrip(description: string, url: string)
    requires '(' !in url
    ensures SplitLink(description + LinkOpen + url + LinkClose) == Some((description, url))
  {
    var s := description + LinkOpen + url + LinkClose;
    var inner := s[..|s| - |LinkClose|];
    assert inner == (description + LinkOpen) + url;
    var k := |description| + |LinkOpen| - 1;
    assert inner[k] == LinkOpen[|LinkOpen| - 1] == '(';
    assert forall m :: k < m < |inner| ==> inner[m] == url[m - k - 1];
    assert LastIndexOf(inner, '(') == k;
    assert inner[..k + 1] == description + LinkOpen;
    assert inner[k + 1..] == url;
  }

  lemma SplitLinkSound(s: string)
    requires SplitLink(s).Some?
    ensures var (description, url) := SplitLink(s).value;
      s == description + LinkOpen + url + LinkClose && '(' !in url
  {
    var inner := s[..|s| - |LinkClose|];
    var j := LastIndexOf(inner, '(');
    var before := inner[..j + 1];
    var url := inner[j + 1..];
    assert before == before[..|before| - |LinkOpen|] + LinkOpen;
    assert inner == before + url;
    assert s == inner + LinkClose;
    assert forall m :: 0 <= m < |url| ==> url[m] == inner[j + 1 + m];
  }

  /** The name, the description and the url appear in the announcement in
      that order, each whole, separated by the fixed Markdown pieces. */
  lemma AnnouncementLayout(f: Shown)
    ensures var t := Announcement(f);
      var d0 := |Header| + |f.name| + |NameClose|;
      var u0 := d0 + |f.description| + |LinkOpen|;
      |t| == u0 + |f.url| + |LinkClose|
      && t[..|Header|] == Header
      && t[|Header|..|Header| + |f.name|] == f.name
      && t[|Header| + |f.name|..d0] == NameClose
      && t[d0..d0 + |f.description|] == f.description
      && t[d0 + |f.description|..u0] == LinkOpen
      && t[u0..u0 + |f.url|] == f.url
      && t[u0 + |f.url|..] == LinkClose
  {
  }

  /** An announcement can be read back into the fields it shows, as long as
      the name holds no `*` and the url no `(`. */
  lemma ParseAnnouncementRoundTrip(f: Shown)
    requires '*' !in f.name && '(' !in f.url
    ensures ParseAnnouncement(Announcement(f)) == Some(f)
  {
    var link := f.description + LinkOpen + f.url + LinkClose;
    var t := Announcement(f);
    assert t == Header + (f.name + NameClose + link);
    assert StartsWith(t, Header) && t[|Header|..] == f.name + NameClose + link;
    SplitNameRoundTrip(f.name, link);
    SplitLinkRoundTrip(f.description, f.url);
  }

  lemma AnnouncementAssoc(f: Shown, link: string)
    requires link == f.description + LinkOpen + f.url + LinkClose
    ensures Announcement(f) == Header + (f.name + NameClose + link)
  {
  }

  /** Whatever the parser accepts is an announcement of the fields it
      returns, with no `*` in the name and no `(` in the url; together with
      the round trip this makes the announcement one-to-one on such fields. */
  lemma ParseAnnouncementSound(t: string)
    requires ParseAnnouncement(t).Some?
    ensures var f := ParseAnnouncement(t).value;
      Announcement(f) == t && '*' !in f.name && '(' !in f.url
  {
    var rest := t[|Header|..];
    var split := SplitName(rest).value;
    var link := SplitLink(split.1).value;
    assert ParseAnnouncement(t).value == Shown(split.0, link.0, link.1);
    SplitNameSound(rest);
    SplitLinkSound(split.1);
    var f := Shown(split.0, link.0, link.1);
    assert t == Header + rest;
    assert rest == f.name + NameClose + split.1;
    assert split.1 == f.description + LinkOpen + f.url + LinkClose;
    AnnouncementAssoc(f, split.1);
  }

  // ---------------------------------------------------------------------
  // The request sent for a course
  // ---------------------------------------------------------------------

  /** Python truthiness of `course.get("image")`: present and not "". */
  predicate HasImage(c: Course) {
    c.image.Some? && c.image.value != []
  }

  /** The single send of lines 52-55: a photo with the announcement as its
      caption when the course has an image, a text message otherwise. */
  function RequestFor(chat: string, c: Course): (req: Request)
    ensures req.chatId == chat
    ensures req.SendPhoto? <==> HasImage(c)
    ensures req.SendPhoto? ==> req.photo == c.image.value && req.caption == Caption(c)
    ensures req.SendMessage? ==> req.text == Caption(c)
  {
    if HasImage(c) then SendPhoto(chat, c.image.value, Caption(c))
    else SendMessage(chat, Caption(c))
  }

  // ---------------------------------------------------------------------
  // One dispatch cycle, as a function of its inputs
  // ---------------------------------------------------------------------

  /** The outcome of a run and the cursor file it leaves behind. */
  datatype Step = Step(outcome: Outcome, file: CursorFile)

  /** Lines 42-59, once the channel, the cursor `last` and the catalog are
      known: select, build the request, send, and write `last + 1` only if
      the send returned. `file` is the cursor file as it stands. */
  function Attempt(channel: string, last: int, courses: seq<Course>,
                   file: CursorFile, delivery: Delivery): Step
  {
    match Select(last, |courses|)
    case NoneLeft => Step(NothingNew, file)
    case OutOfRange => Step(IndexError, file)
    case At(i) =>
      var req := RequestFor(channel, courses[i]);
      if delivery.Raised? then Step(SendFailed(i, req), file)
      else Step(Sent(i, req), Number(last + 1))
  }

  /** One run of `main()`: `file` is the cursor file before the run,
      `channel` and `catalogFile` the other two files, `delivery` how the
      chat service answers the one send. */
  function Cycle(file: CursorFile, channel: Option<string>,
                 catalogFile: Option<seq<Course>>, delivery: Delivery): Step
  {
    if !HasChannel(channel) then Step(NoChannel, file)
    else
      match LoadLastSent(file)
      case None => Step(CursorUnreadable, file)
      case Some(last) => Attempt(channel.value, last, LoadCourses(catalogFile), file, delivery)
  }

  /** What lines 42-59 do: the two early exits happen exactly under their
      guards; a send, whether it returns or raises, concerns an in-range
      course (courses[last] itself for a non-negative cursor) and is the
      request built from it; the cursor file is replaced, by last + 1, only
      when the send returned. */
  lemma AttemptSpec(channel: string, last: int, courses: seq<Course>,
                    file: CursorFile, delivery: Delivery)
    ensures var s := Attempt(channel, last, courses, file, delivery);
      (s.file != file ==> s.outcome.Sent?)
      && !s.outcome.NoChannel? && !s.outcome.CursorUnreadable?
      && (s.outcome.NothingNew? <==> last >= |courses|)
      && (s.outcome.IndexError? <==> last + |courses| < 0)
      && ((s.outcome.Sent? || s.outcome.SendFailed?) ==>
            s.outcome.index < |courses| && (last >= 0 ==> s.outcome.index == last)
            && s.outcome.request == RequestFor(channel, courses[s.outcome.index]))
      && (s.outcome.Sent? <==> delivery.Delivered? && Select(last, |courses|).At?)
      && (s.outcome.Sent? ==> s.file == Number(last + 1))
      && (s.outcome.SendFailed? ==> s.file == file)
  {
  }

  /** What a whole run does: each way it can end happens exactly under its
      condition; a send, whether it returns or raises, concerns an in-range
      course (courses[last] itself for a non-negative cursor) and is the
      request built from it; the cursor file is rewritten only after a send
      that returned, and then holds last + 1. */
  lemma CycleSpec(file: CursorFile, channel: Option<string>,
                  catalogFile: Option<seq<Course>>, delivery: Delivery)
    ensures var s := Cycle(file, channel, catalogFile, delivery);
      var last := LoadLastSent(file);
      var courses := LoadCourses(catalogFile);
      (s.file != file ==> s.outcome.Sent?)
      && (s.outcome.NoChannel? <==> !HasChannel(channel))
      && (s.outcome.CursorUnreadable? <==> HasChannel(channel) && file.Unparsable?)
      && (s.outcome.NothingNew? <==> HasChannel(channel) && last.Some? && last.value >= |courses|)
      && (s.outcome.IndexError? <==> HasChannel(channel) && last.Some? && last.value + |courses| < 0)
      && ((s.outcome.Sent? || s.outcome.SendFailed?) ==>
            HasChannel(channel) && last.Some? && s.outcome.index < |courses|
            && (last.value >= 0 ==> s.outcome.index == last.value)
            && s.outcome.request == RequestFor(channel.value, courses[s.outcome.index]))
      && (s.outcome.Sent? ==> delivery.Delivered? && s.file == Number(last.value + 1))
      && (s.outcome.SendFailed? ==> delivery.Raised? && s.file == file)
  {
    var last := LoadLastSent(file);
    if HasChannel(channel) && last.Some? {
      AttemptSpec(channel.value, last.value, LoadCourses(catalogFile), file, delivery);
    }
  }

  // ---------------------------------------------------------------------
  // The persisted cursor, updated in place
  // ---------------------------------------------------------------------

  /** The cursor file `scraper/last_sent.txt` seen across runs. `posted`
      records, for the proof only, the catalog index of every announcement
      that went out through this store; `base` is the cursor it started at. */
  class CursorStore {
    var file: CursorFile
    ghost var posted: seq<nat>
    ghost const base: int

    /** The cursor counts the announcements made, and when it started at a
        non-negative value they were the catalog positions from `base` on. */
    ghost predicate Valid()
      reads this
    {
      (LoadLastSent(file).Some? ==> LoadLastSent(file).value == base + |posted|)
      && (LoadLastSent(file).None? ==> posted == [])
      && (base >= 0 ==> forall k :: 0 <= k < |posted| ==> posted[k] == base + k)
    }

    constructor (initial: CursorFile)
      ensures file == initial && posted == [] && Valid()
      ensures base == LoadLastSent(initial).GetOr(0)
    {
      file := initial;
      posted := [];
      base := LoadLastSent(initial).GetOr(0);
    }

    /** `save_last_sent(i)`: overwrites the file with `str(i)`, which the next
        `load_last_sent()` reads back as `i`. */
    method SaveLastSent(i: int)
      modifies this`file
      ensures file == Number(i)
      ensures LoadLastSent(file) == Some(i)
    {
      file := Number(i);
    }

    /** One run of `main()` against this store. */
    method Dispatch(channel: Option<string>, catalogFile: Option<seq<Course>>,
                    delivery: Delivery) returns (o: Outcome)
      requires Valid()
      modifies this
      ensures Valid()
      ensures Step(o, file) == Cycle(old(file), channel, catalogFile, delivery)
      ensures !o.Sent? ==> file == old(file) && posted == old(posted)
      ensures o.Sent? ==> file == Number(LoadLastSent(old(file)).value + 1)
                          && posted == old(posted) + [o.index]
    {
      ghost var expected := Cycle(file, channel, catalogFile, delivery);
      if !HasChannel(channel) {
        assert expected == Step(NoChannel, file);
        return NoChannel;
      }
      var loaded := LoadLastSent(file);
      if loaded.None? {
        assert expected == Step(CursorUnreadable, file);
        return CursorUnreadable;
      }
      var last := loaded.value;
      var courses := LoadCourses(catalogFile);
      assert expected == Attempt(channel.value, last, courses, file, delivery);
      var sel := Select(last, |courses|);
      if sel.NoneLeft? {
        assert expected == Step(NothingNew, file);
        return NothingNew;
      }
      if sel.OutOfRange? {
        assert expected == Step(IndexError, file);
        return IndexError;
      }
      var req := RequestFor(channel.value, courses[sel.index]);
      if delivery.Raised? {
        assert expected == Step(SendFailed(sel.index, req), file);
        return SendFailed(sel.index, req);
      }
      assert expected == Step(Sent(sel.index, req), Number(last + 1));
      SaveLastSent(last + 1);
      posted := posted + [sel.index];
      o := Sent(sel.index, req);
    }

    /** The catalog positions posted through a store that started from a
        non-negative cursor are strictly increasing, so none is posted twice. */
    lemma PostedIncreasing()
      requires Valid() && base >= 0
      ensures forall i, j :: 0 <= i < j < |posted| ==> posted[i] < posted[j]
    {
    }
  }
}
