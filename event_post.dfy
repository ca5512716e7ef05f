/**
 * The text posted for one event of the city calendar: a title line, then
 * each optional field that is non-empty, under a fixed label and in a fixed
 * order, cut to X's 280-character limit. Lengths count code points, as
 * Python's `len` and slicing do; each label emoji is a single code point.
 */
module EventPost {
  import opened Wrappers

  /** The title used when an event box has no title link. */
  const UnknownTitle: string := "タイトル不明"

  /** The post limit, the length kept when cutting, and the marker appended. */
  const MaxLen: nat := 280
  const CutLen: nat := 277
  const Ellipsis: string := "..."

  const TitleLabel: string := "📅 "

  /**
   * What the lookups in one `.cal_event_box` found: None when the element
   * is absent, otherwise its text, already stripped.
   */
  datatype Scraped = Scraped(
    title: Option<string>,
    category: Option<string>,
    comment: Option<string>,
    time: Option<string>,
    place: Option<string>,
    contact: Option<string>)

  /** The six strings the formatter works on. */
  datatype Fields = Fields(
    title: string,
    category: string,
    comment: string,
    time: string,
    place: string,
    contact: string)

  /** A missing title becomes UnknownTitle; any other missing field becomes "". */
  function WithDefaults(s: Scraped): (f: Fields)
    ensures s.title.None? ==> f.title == UnknownTitle
    ensures s.title.Some? ==> f.title == s.title.value
    ensures forall k :: ValueOf(f, k) == if Found(s, k).Some? then Found(s, k).value else ""
  {
    Fields(
      s.title.GetOr(UnknownTitle),
      s.category.GetOr(""),
      s.comment.GetOr(""),
      s.time.GetOr(""),
      s.place.GetOr(""),
      s.contact.GetOr(""))
  }

  /** The optional fields. */
  datatype Kind = Category | Comment | Time | Place | Contact

  /** The order in which the optional fields follow the title line. */
  const Order: seq<Kind> := [Category, Comment, Time, Place, Contact]

  /** Position of a field in Order. */
  function Rank(k: Kind): (r: nat)
    ensures r < |Order| && Order[r] == k
  {
    match k
    case Category => 0
    case Comment => 1
    case Time => 2
    case Place => 3
    case Contact => 4
  }

  function ValueOf(f: Fields, k: Kind): string {
    match k
    case Category => f.category
    case Comment => f.comment
    case Time => f.time
    case Place => f.place
    case Contact => f.contact
  }

  /** The text written before a field's value. */
  function Label(k: Kind): string {
    match k
    case Category => "カテゴリ: "
    case Comment => ""
    case Time => "⏰ "
    case Place => "📍 "
    case Contact => "📞 "
  }

  /** Every field but the last one ends its line. */
  function Terminator(k: Kind): string {
    if k == Contact then "" else "\n"
  }

  datatype Entry = Entry(kind: Kind, value: string)

  /** The fields among `ks` whose value is non-empty, in the order of `ks`. */
  function Select(f: Fields, ks: seq<Kind>): (es: seq<Entry>)
    ensures |es| <= |ks|
  {
    if ks == [] then []
    else
      var rest := Select(f, ks[1..]);
      if ValueOf(f, ks[0]) == "" then rest else [Entry(ks[0], ValueOf(f, ks[0]))] + rest
  }

  /** The optional fields that the post shows. */
  function Present(f: Fields): seq<Entry> {
    Select(f, Order)
  }

  /** One field as it appears in the post. */
  function Segment(e: Entry): string {
    Label(e.kind) + e.value + Terminator(e.kind)
  }

  function Render(es: seq<Entry>): string {
    if es == [] then "" else Segment(es[0]) + Render(es[1..])
  }

  function Header(f: Fields): string {
    TitleLabel + f.title + "\n"
  }

  /**
   * The post before it is cut to the limit. It opens with the title line,
   * and it ends with the contact line when there is a contact, otherwise
   * with a line break.
   */
  function Body(f: Fields): (r: string)
    ensures Header(f) <= r
    ensures f.contact == "" ==> r[|r| - 1] == '\n'
    ensures f.contact != "" ==> EndsWith(r, Label(Contact) + f.contact)
  {
    BodyEnding(f);
    Header(f) + Render(Present(f))
  }

  /** Cuts an over-long text to CutLen characters followed by the ellipsis. */
  function Truncate(s: string): (r: string)
    ensures |r| <= MaxLen
    ensures |s| <= MaxLen ==> r == s
    ensures |s| > MaxLen ==> |r| == MaxLen && r[..CutLen] == s[..CutLen] && r[CutLen..] == Ellipsis
  {
    if |s| > MaxLen then s[..CutLen] + Ellipsis else s
  }

  /**
   * The text posted for one event: the body when it fits, otherwise the
   * body's first CutLen characters and the ellipsis.
   */
  function Post(f: Fields): (r: string)
    ensures |r| <= MaxLen
    ensures r == Body(f) <==> |Body(f)| <= MaxLen
    ensures |Body(f)| > MaxLen ==> |r| == MaxLen && r[..CutLen] == Body(f)[..CutLen] && r[CutLen..] == Ellipsis
    ensures |Header(f)| <= CutLen ==> Header(f) <= r
  {
    var b := Body(f);
    assert |Header(f)| <= CutLen && |b| > MaxLen ==> b[..CutLen][..|Header(f)|] == Header(f);
    Truncate(b)
  }

  /** A field's contribution to the post: its segment, or nothing when it is empty. */
  function Optional(f: Fields, k: Kind): string {
    if ValueOf(f, k) == "" then "" else Segment(Entry(k, ValueOf(f, k)))
  }

  lemma RenderSelectCons(f: Fields, ks: seq<Kind>)
    requires ks != []
    ensures Render(Select(f, ks)) == Optional(f, ks[0]) + Render(Select(f, ks[1..]))
  {
  }

  /** The optional part of the body spelled out field by field. */
  lemma RenderPresent(f: Fields)
    ensures Render(Present(f)) ==
      Optional(f, Category) + (Optional(f, Comment) + (Optional(f, Time)
      + (Optional(f, Place) + Optional(f, Contact))))
  {
    var o1 := Order[1..];
    var o2 := o1[1..];
    var o3 := o2[1..];
    var o4 := o3[1..];
    assert Order[0] == Category && o1[0] == Comment && o2[0] == Time;
    assert o3[0] == Place && o4[0] == Contact && o4[1..] == [];
    RenderSelectCons(f, Order);
    RenderSelectCons(f, o1);
    RenderSelectCons(f, o2);
    RenderSelectCons(f, o3);
    RenderSelectCons(f, o4);
    assert Optional(f, Contact) + "" == Optional(f, Contact);
  }

  /** One `if field: text += piece` step appends exactly that field's Optional. */
  lemma {:induction false} Appended(f: Fields, k: Kind, before: string, after: string, piece: string)
    requires ValueOf(f, k) != "" ==> piece == Label(k) + ValueOf(f, k) + Terminator(k)
    requires after == if ValueOf(f, k) != "" then before + piece else before
    ensures after == before + Optional(f, k)
  {
    assert before + "" == before;
  }

  /** Regrouping a concatenation, kept apart so that its proof sees no other facts. */
  lemma Assoc<T>(a: seq<T>, b: seq<T>, c: seq<T>)
    ensures a + (b + c) == (a + b) + c
  {
  }

  /** The body as the script builds it: the header, then each field appended in turn. */
  lemma {:induction false} BuiltIsBody(f: Fields, t0: string, t1: string, t2: string, t3: string, t4: string, t5: string)
    requires t0 == Header(f)
    requires t1 == t0 + Optional(f, Category) && t2 == t1 + Optional(f, Comment)
    requires t3 == t2 + Optional(f, Time) && t4 == t3 + Optional(f, Place)
    requires t5 == t4 + Optional(f, Contact)
    ensures t5 == Body(f)
  {
    var o1, o2, o3, o4, o5 :=
      Optional(f, Category), Optional(f, Comment), Optional(f, Time),
      Optional(f, Place), Optional(f, Contact);
    RenderPresent(f);
    Assoc(t0, o1, o2 + (o3 + (o4 + o5)));
    Assoc(t1, o2, o3 + (o4 + o5));
    Assoc(t2, o3, o4 + o5);
    Assoc(t3, o4, o5);
  }

  /**
   * Formats one event as the loop body of the script does: take each field
   * found, or its default when the element is missing, and build the post.
   */
  method FormatEvent(s: Scraped) returns (text: string)
    ensures text == Post(WithDefaults(s))
    ensures |text| <= MaxLen
  {
    // One conditional expression per lookup and its fallback, in the order
    // the script does them; WithDefaults is the same step as a function.
    var title := if s.title.Some? then s.title.value else UnknownTitle;
    var category := if s.category.Some? then s.category.value else "";
    var comment := if s.comment.Some? then s.comment.value else "";
    var time := if s.time.Some? then s.time.value else "";
    var place := if s.place.Some? then s.place.value else "";
    var contact := if s.contact.Some? then s.contact.value else "";
    text := BuildText(Fields(title, category, comment, time, place, contact));
  }

  /**
   * Builds the post piece by piece: the title line, then each non-empty
   * field appended in turn, then the cut to the limit.
   */
  method BuildText(f: Fields) returns (text: string)
    ensures text == Post(f)
    ensures |text| <= MaxLen
  {
    text := "📅 " + f.title + "\n";
    ghost var t0 := text;
    if f.category != "" {
      text := text + ("カテゴリ: " + f.category + "\n");
    }
    ghost var t1 := text;
    Appended(f, Category, t0, t1, "カテゴリ: " + f.category + "\n");
    if f.comment != "" {
      text := text + (f.comment + "\n");
    }
    ghost var t2 := text;
    Appended(f, Comment, t1, t2, f.comment + "\n");
    if f.time != "" {
      text := text + ("⏰ " + f.time + "\n");
    }
    ghost var t3 := text;
    Appended(f, Time, t2, t3, "⏰ " + f.time + "\n");
    if f.place != "" {
      text := text + ("📍 " + f.place + "\n");
    }
    ghost var t4 := text;
    Appended(f, Place, t3, t4, "📍 " + f.place + "\n");
    if f.contact != "" {
      text := text + ("📞 " + f.contact);
    }
    Appended(f, Contact, t4, text, "📞 " + f.contact);
    BuiltIsBody(f, t0, t1, t2, t3, t4, text);

    if |text| > MaxLen {
      text := text[..CutLen] + Ellipsis;
    }
    assert text == Truncate(Body(f));
  }

  /**
   * The texts handed to the posting call, one per event box and in page
   * order. A failed post is caught and does not stop the loop, so every
   * event's text is posted.
   */
  method FormatEvents(events: seq<Scraped>) returns (posts: seq<string>)
    ensures |posts| == |events|
    ensures forall i :: 0 <= i < |events| ==> posts[i] == Post(WithDefaults(events[i]))
    ensures forall i :: 0 <= i < |posts| ==> |posts[i]| <= MaxLen
  {
    posts := [];
    for i := 0 to |events|
      invariant |posts| == i
      invariant forall j :: 0 <= j < i ==> posts[j] == Post(WithDefaults(events[j]))
      invariant forall j :: 0 <= j < i ==> |posts[j]| <= MaxLen
    {
      var text := FormatEvent(events[i]);
      posts := posts + [text];
    }
  }

  // ---------------------------------------------------------------------
  // Which fields the post shows, and in what order

  /** Every entry shown is one of `ks`, carries that field's value, and is non-empty. */
  lemma {:induction false} SelectSound(f: Fields, ks: seq<Kind>)
    ensures forall e :: e in Select(f, ks) ==> e.kind in ks && e.value == ValueOf(f, e.kind) && e.value != ""
  {
    if ks != [] {
      SelectSound(f, ks[1..]);
      assert forall k :: k in ks[1..] ==> k in ks;
    }
  }

  /** Every non-empty field among `ks` is shown. */
  lemma {:induction false} SelectComplete(f: Fields, ks: seq<Kind>)
    ensures forall k :: k in ks && ValueOf(f, k) != "" ==> Entry(k, ValueOf(f, k)) in Select(f, ks)
  {
    if ks != [] {
      SelectComplete(f, ks[1..]);
      assert forall k :: k in ks ==> k == ks[0] || k in ks[1..];
    }
  }

  predicate Increasing(ks: seq<Kind>) {
    forall i, j :: 0 <= i < j < |ks| ==> Rank(ks[i]) < Rank(ks[j])
  }

  predicate EntriesIncreasing(es: seq<Entry>) {
    forall i, j :: 0 <= i < j < |es| ==> Rank(es[i].kind) < Rank(es[j].kind)
  }

  lemma IncreasingTail(ks: seq<Kind>)
    requires ks != [] && Increasing(ks)
    ensures Increasing(ks[1..])
    ensures forall k :: k in ks[1..] ==> Rank(ks[0]) < Rank(k)
  {
    var rest := ks[1..];
    forall i, j | 0 <= i < j < |rest| ensures Rank(rest[i]) < Rank(rest[j]) {
      assert rest[i] == ks[i + 1] && rest[j] == ks[j + 1];
    }
    forall k | k in rest ensures Rank(ks[0]) < Rank(k) {
      var m :| 0 <= m < |rest| && rest[m] == k;
      assert ks[m + 1] == k;
    }
  }

  lemma ConsIncreasing(e: Entry, es: seq<Entry>)
    requires EntriesIncreasing(es)
    requires forall x :: x in es ==> Rank(e.kind) < Rank(x.kind)
    ensures EntriesIncreasing([e] + es)
  {
    var all := [e] + es;
    forall i, j | 0 <= i < j < |all| ensures Rank(all[i].kind) < Rank(all[j].kind) {
      assert all[j] == es[j - 1];
      if i > 0 {
        assert all[i] == es[i - 1];
      } else {
        assert es[j - 1] in es;
      }
    }
  }

  /** Select keeps the order of `ks`. */
  lemma {:induction false} SelectOrdered(f: Fields, ks: seq<Kind>)
    requires Increasing(ks)
    ensures EntriesIncreasing(Select(f, ks))
  {
    if ks != [] {
      var rest := ks[1..];
      IncreasingTail(ks);
      SelectOrdered(f, rest);
      if ValueOf(f, ks[0]) != "" {
        SelectSound(f, rest);
        ConsIncreasing(Entry(ks[0], ValueOf(f, ks[0])), Select(f, rest));
      }
    }
  }

  /** Each optional field appears in the post if and only if it is non-empty. */
  lemma PresentIff(f: Fields, k: Kind)
    ensures (exists e :: e in Present(f) && e.kind == k) <==> ValueOf(f, k) != ""
    ensures forall e :: e in Present(f) ==> e.value == ValueOf(f, e.kind) && e.value != ""
  {
    SelectSound(f, Order);
    SelectComplete(f, Order);
    assert k in Order by { assert Order[Rank(k)] == k; }
  }

  /** The fields appear as category, comment, time, place, contact. */
  lemma PresentOrdered(f: Fields)
    ensures EntriesIncreasing(Present(f))
  {
    assert Increasing(Order) by {
      forall i, j | 0 <= i < j < |Order| ensures Rank(Order[i]) < Rank(Order[j]) {
        assert Rank(Order[i]) == i && Rank(Order[j]) == j;
      }
    }
    SelectOrdered(f, Order);
  }

  /** The field a lookup of the script yields, before defaults. */
  function Found(s: Scraped, k: Kind): Option<string> {
    match k
    case Category => s.category
    case Comment => s.comment
    case Time => s.time
    case Place => s.place
    case Contact => s.contact
  }

  /** A missing element leaves its field out of the post altogether. */
  lemma MissingFieldOmitted(s: Scraped, k: Kind)
    requires Found(s, k).None?
    ensures forall e :: e in Present(WithDefaults(s)) ==> e.kind != k
  {
    SelectSound(WithDefaults(s), Order);
    assert ValueOf(WithDefaults(s), k) == "";
  }

  /** A found field is shown exactly when its text is non-empty, with that text. */
  lemma FoundFieldShown(s: Scraped, k: Kind, v: string)
    requires Found(s, k) == Some(v)
    ensures v != "" <==> Entry(k, v) in Present(WithDefaults(s))
  {
    var f := WithDefaults(s);
    assert ValueOf(f, k) == v;
    PresentIff(f, k);
  }

  // ---------------------------------------------------------------------
  // The title line and the length limit

  /**
   * The title line comes first; a missing title reads UnknownTitle. After
   * the cut the title line survives whole when it fits in CutLen characters,
   * otherwise at least its first CutLen characters do.
   */
  lemma PostStartsWithTitle(s: Scraped)
    ensures Header(WithDefaults(s)) <= Body(WithDefaults(s))
    ensures s.title.None? ==> Header(WithDefaults(s)) == TitleLabel + UnknownTitle + "\n"
    ensures s.title.Some? ==> Header(WithDefaults(s)) == TitleLabel + s.title.value + "\n"
    ensures |Header(WithDefaults(s))| <= CutLen ==> Header(WithDefaults(s)) <= Post(WithDefaults(s))
    ensures |Header(WithDefaults(s))| > CutLen ==>
      Header(WithDefaults(s))[..CutLen] <= Post(WithDefaults(s))
    ensures |Body(WithDefaults(s))| <= MaxLen ==> Header(WithDefaults(s)) <= Post(WithDefaults(s))
  {
    var f := WithDefaults(s);
    var h, b := Header(f), Body(f);
    assert b[..|h|] == h;
    if |h| > CutLen {
      assert b[..CutLen] == h[..CutLen];
    }
  }

  /** The cut changes a text exactly when the text is over the limit. */
  lemma TruncateFixedPoints(s: string)
    ensures Truncate(s) == s <==> |s| <= MaxLen
    ensures Truncate(Truncate(s)) == Truncate(s)
  {
  }

  // ---------------------------------------------------------------------
  // The post line by line

  /** `s.split("\n")` in Python: the pieces between newlines, at least one. */
  function SplitLines(s: string): (r: seq<string>)
    ensures |r| >= 1
  {
    if s == [] then [""]
    else
      var rest := SplitLines(s[1..]);
      if s[0] == '\n' then [""] + rest else [[s[0]] + rest[0]] + rest[1..]
  }

  lemma {:induction false} SplitLinesSingle(a: string)
    requires '\n' !in a
    ensures SplitLines(a) == [a]
  {
    if a != [] {
      SplitLinesSingle(a[1..]);
      assert a == [a[0]] + a[1..];
    }
  }

  lemma {:induction false} SplitLinesCons(a: string, b: string)
    requires '\n' !in a
    ensures SplitLines(a + "\n" + b) == [a] + SplitLines(b)
  {
    var s := a + "\n" + b;
    if a == [] {
      assert s == "\n" + b && s[1..] == b;
    } else {
      assert s[0] == a[0] && s[1..] == a[1..] + "\n" + b;
      SplitLinesCons(a[1..], b);
      assert a == [a[0]] + a[1..];
    }
  }

  /** A field as its line reads, without the line break. */
  function LineOf(e: Entry): string {
    Label(e.kind) + e.value
  }

  function LinesOf(es: seq<Entry>): (ls: seq<string>)
    ensures |ls| == |es|
    ensures forall i :: 0 <= i < |es| ==> ls[i] == LineOf(es[i])
  {
    if es == [] then [] else [LineOf(es[0])] + LinesOf(es[1..])
  }

  predicate SingleLine(f: Fields) {
    '\n' !in f.title && '\n' !in f.category && '\n' !in f.comment
    && '\n' !in f.time && '\n' !in f.place && '\n' !in f.contact
  }

  lemma LabelSingleLine(k: Kind)
    ensures '\n' !in Label(k)
  {
    match k
    case Category =>
    case Comment =>
    case Time =>
    case Place =>
    case Contact =>
  }

  /** The entries' values and labels hold no line break, and only the last may be the contact. */
  predicate WellLined(es: seq<Entry>) {
    (forall e :: e in es ==> '\n' !in e.value)
    && (forall i :: 0 <= i < |es| && es[i].kind == Contact ==> i == |es| - 1)
  }

  /** What follows the entries' lines: an empty last piece unless the text ends with the contact. */
  function Trailer(es: seq<Entry>): seq<string> {
    if es != [] && es[|es| - 1].kind == Contact then [] else [""]
  }

  lemma LineOfSingleLine(e: Entry)
    requires '\n' !in e.value
    ensures '\n' !in LineOf(e)
  {
    LabelSingleLine(e.kind);
  }

  lemma WellLinedTail(es: seq<Entry>)
    requires es != [] && WellLined(es)
    ensures WellLined(es[1..])
    ensures es[1..] != [] ==> Trailer(es[1..]) == Trailer(es)
    ensures '\n' !in es[0].value
  {
    var rest := es[1..];
    assert es[0] in es;
    assert forall x :: x in rest ==> x in es;
    forall i | 0 <= i < |rest| && rest[i].kind == Contact ensures i == |rest| - 1 {
      assert es[i + 1] == rest[i];
    }
    if rest != [] {
      assert es[|es| - 1] == rest[|rest| - 1];
    }
  }

  /** The contact line closes the post without a line break. */
  lemma RenderLinesContact(e: Entry)
    requires e.kind == Contact && '\n' !in e.value
    ensures SplitLines(Render([e])) == LinesOf([e]) + Trailer([e])
  {
    LineOfSingleLine(e);
    assert Render([e]) == LineOf(e) + "" + "";
    assert LineOf(e) + "" + "" == LineOf(e);
    SplitLinesSingle(LineOf(e));
  }

  lemma {:induction false} RenderLines(es: seq<Entry>)
    requires WellLined(es)
    ensures SplitLines(Render(es)) == LinesOf(es) + Trailer(es)
  {
    if es != [] {
      var e, rest := es[0], es[1..];
      WellLinedTail(es);
      LineOfSingleLine(e);
      if e.kind == Contact {
        assert es == [e];
        RenderLinesContact(e);
      } else {
        RenderLines(rest);
        assert Render(es) == LineOf(e) + "\n" + Render(rest);
        SplitLinesCons(LineOf(e), Render(rest));
        assert LinesOf(es) == [LineOf(e)] + LinesOf(rest);
        assert Trailer(rest) == Trailer(es);
        Assoc([LineOf(e)], LinesOf(rest), Trailer(es));
      }
    }
  }

  /** In increasing order, an entry followed by another is not the contact. */
  lemma NotLastNotContact(es: seq<Entry>, i: nat)
    requires EntriesIncreasing(es) && i < |es| - 1
    ensures es[i].kind != Contact
  {
    assert Rank(es[i].kind) < Rank(es[i + 1].kind);
  }

  /** Where the contact entry can be: last, and there exactly when the contact is non-empty. */
  lemma ContactLast(f: Fields)
    ensures forall i :: 0 <= i < |Present(f)| && Present(f)[i].kind == Contact ==> i == |Present(f)| - 1
    ensures (Present(f) != [] && Present(f)[|Present(f)| - 1].kind == Contact) <==> f.contact != ""
  {
    var es := Present(f);
    PresentOrdered(f);
    PresentIff(f, Contact);
    forall i | 0 <= i < |es| && es[i].kind == Contact ensures i == |es| - 1 {
      if i < |es| - 1 {
        NotLastNotContact(es, i);
        assert false;
      }
    }
    if f.contact != "" {
      var e :| e in es && e.kind == Contact;
      var i :| 0 <= i < |es| && es[i] == e;
    }
    if es != [] && es[|es| - 1].kind == Contact {
      assert es[|es| - 1] in es;
    }
  }

  predicate EndsWith(s: string, t: string) {
    |t| <= |s| && s[|s| - |t|..] == t
  }

  lemma {:induction false} EndsWithConcat(a: string, b: string, t: string)
    requires EndsWith(b, t)
    ensures EndsWith(a + b, t)
  {
    assert (a + b)[|a + b| - |t|..] == b[|b| - |t|..];
  }

  lemma EndsWithLastChar(s: string, t: string)
    requires EndsWith(s, t) && |t| > 0
    ensures s[|s| - 1] == t[|t| - 1]
  {
    assert s[|s| - 1] == s[|s| - |t|..][|t| - 1];
  }

  /** The rendering ends with the segment of its last entry. */
  lemma {:induction false} RenderEndsWithLast(es: seq<Entry>)
    requires es != []
    ensures EndsWith(Render(es), Segment(es[|es| - 1]))
  {
    if |es| == 1 {
      assert Render(es) == Segment(es[0]) + "";
    } else {
      RenderEndsWithLast(es[1..]);
      assert es[1..][|es[1..]| - 1] == es[|es| - 1];
      EndsWithConcat(Segment(es[0]), Render(es[1..]), Segment(es[|es| - 1]));
    }
  }

  /** The last field's segment: the contact line, or a line ending in a line break. */
  lemma LastSegment(f: Fields)
    requires Present(f) != []
    ensures var g := Segment(Present(f)[|Present(f)| - 1]);
      (f.contact == "" ==> |g| > 0 && g[|g| - 1] == '\n') &&
      (f.contact != "" ==> g == Label(Contact) + f.contact)
  {
    var es := Present(f);
    var e := es[|es| - 1];
    assert e.kind == Contact <==> f.contact != "" by { ContactLast(f); }
    if f.contact != "" {
      assert e.value == f.contact by {
        assert e in es;
        PresentIff(f, Contact);
      }
      assert Segment(e) == Label(Contact) + f.contact + "";
    }
  }

  /** How the body ends, stated on its definition. */
  lemma BodyEnding(f: Fields)
    ensures var r := Header(f) + Render(Present(f));
      (f.contact == "" ==> r[|r| - 1] == '\n') &&
      (f.contact != "" ==> EndsWith(r, Label(Contact) + f.contact))
  {
    if Present(f) == [] {
      BodyEndingBare(f);
    } else {
      BodyEndingLast(f);
    }
  }

  /** With no optional field shown, the body is the title line alone. */
  lemma BodyEndingBare(f: Fields)
    requires Present(f) == []
    ensures f.contact == ""
    ensures var r := Header(f) + Render(Present(f)); r[|r| - 1] == '\n'
  {
    var h := Header(f);
    assert |Render(Present(f))| == 0;
    assert (h + Render(Present(f)))[|h| - 1] == h[|h| - 1];
    PresentIff(f, Contact);
  }

  lemma BodyEndingLast(f: Fields)
    requires Present(f) != []
    ensures var r := Header(f) + Render(Present(f));
      (f.contact == "" ==> r[|r| - 1] == '\n') &&
      (f.contact != "" ==> EndsWith(r, Label(Contact) + f.contact))
  {
    var es := Present(f);
    var h := Header(f);
    var g := Segment(es[|es| - 1]);
    RenderEndsWithLast(es);
    EndsWithConcat(h, Render(es), g);
    LastSegment(f);
    if f.contact == "" {
      EndsWithLastChar(h + Render(es), g);
    }
  }

  /**
   * Read line by line, a post whose fields are single lines is the title
   * line, then one line per non-empty field in order, each with its label;
   * every line but the contact line ends in a newline, so the text ends in
   * a newline exactly when there is no contact.
   */
  lemma BodyLines(f: Fields)
    requires SingleLine(f)
    ensures SplitLines(Body(f)) ==
      [TitleLabel + f.title] + LinesOf(Present(f)) + (if f.contact == "" then [""] else [])
  {
    var es := Present(f);
    PresentIff(f, Category);
    forall e | e in es ensures '\n' !in e.value {
      match e.kind
      case Category =>
      case Comment =>
      case Time =>
      case Place =>
      case Contact =>
    }
    assert Trailer(es) == if f.contact == "" then [""] else [] by {
      ContactLast(f);
    }
    assert SplitLines(Render(es)) == LinesOf(es) + Trailer(es) by {
      assert WellLined(es) by { ContactLast(f); }
      RenderLines(es);
    }
    var t := TitleLabel + f.title;
    assert '\n' !in t;
    assert Body(f) == t + "\n" + Render(es);
    SplitLinesCons(t, Render(es));
    Assoc([t], LinesOf(es), Trailer(es));
  }
}
