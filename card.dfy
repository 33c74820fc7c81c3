/** The markup of one activity card: the spots-left figure, the
    participants fragment (an empty-state paragraph, or a list with one
    item and one unregister button per participant) and the card around
    them.  `ReadParticipants` and `ReadCard` read that markup back the way
    a browser shows it: element text and attribute values with the five
    entities decoded. */
module Card {
  import opened Wrappers
  import opened Escape
  import opened Decimal

  /** One activity of the catalog, keyed by its name in the catalog. */
  datatype Activity = Activity(
    description: string,
    schedule: string,
    maxParticipants: int,
    participants: seq<string>)

  /** Free places; not clamped, so it is 0 for a full activity and negative
      when the catalog lists more participants than places. */
  function SpotsLeft(a: Activity): (n: int)
    ensures n + |a.participants| == a.maxParticipants
    ensures n == 0 <==> |a.participants| == a.maxParticipants
    ensures n < 0 <==> |a.participants| > a.maxParticipants
  {
    a.maxParticipants - |a.participants|
  }

  const ItemOpen: string := "<li><span class=\"participant-email\">"
  const ItemAfterText: string :=
    "</span> <button" + " class=\"participant-unregister\"" + " data-activity=\""
  const ItemAfterActivity: string := "\" data-email=\""
  const ItemClose: string := "\" title=\"Unregister\">\U{2716}</button></li>"
  const EmptyState: string := "<p class=\"participants-empty\">" + "No participants yet</p>"

  /** One participant: the escaped email as the item's text, and a button
      whose data attributes carry the escaped activity name and email. */
  function ParticipantItem(activity: string, email: string): (r: string)
    ensures |r| >= |ItemClose| && r[|r| - |ItemClose|..] == ItemClose
  {
    ItemOpen + EscapeHtml(email) + ItemAfterText + EscapeHtml(activity)
    + ItemAfterActivity + EscapeHtml(email) + ItemClose
  }

  /** The items of all participants, joined with no separator. */
  function JoinItems(activity: string, emails: seq<string>): (r: string)
    ensures r == [] <==> emails == []
  {
    if emails == [] then [] else ParticipantItem(activity, emails[0]) + JoinItems(activity, emails[1..])
  }

  /** The empty-state paragraph for no participants, otherwise a list. */
  function ParticipantsHtml(activity: string, emails: seq<string>): (r: string)
    ensures r == EmptyState <==> emails == []
    ensures emails != [] ==> |r| >= 9 && r[..4] == "<ul>" && r[|r| - 5..] == "</ul>"
  {
    if |emails| > 0 then "<ul>" + JoinItems(activity, emails) + "</ul>" else EmptyState
  }

  const CardOpen: string := "\n          <h4>"
  const AfterName: string := "</h4>\n          <p>"
  const AfterDescription: string := "</p>\n          " + "<p><strong>Schedule:</strong> "
  const AfterSchedule: string := "</p>\n          " + "<p><strong>Availability:</strong> "
  const AfterSpots: string :=
    " spots left</p>\n" + "          <div class=\"participants\">\n"
    + "            <strong>Participants</strong>\n" + "            "
  const CardClose: string := "\n          </div>\n        "

  /** The inner markup of the card of activity `name`. */
  function CardHtml(name: string, a: Activity): (r: string)
    ensures |r| >= |CardClose| && r[|r| - |CardClose|..] == CardClose
  {
    CardOpen + EscapeHtml(name) + AfterName + EscapeHtml(a.description)
    + AfterDescription + EscapeHtml(a.schedule) + AfterSchedule
    + IntToString(SpotsLeft(a)) + AfterSpots
    + ParticipantsHtml(name, a.participants) + CardClose
  }

  // ---------------------------------------------------------------------
  // Reading the markup back.

  /** What one list item shows: its text, and the `data-activity` and
      `data-email` values the unregister handler reads from its button. */
  datatype Entry = Entry(text: string, activity: string, email: string)

  /** What a card shows. */
  datatype CardView = CardView(
    name: string,
    description: string,
    schedule: string,
    spotsLeft: int,
    entries: seq<Entry>)

  /** The entries the participants of `activity` should read back as. */
  function Entries(activity: string, emails: seq<string>): (es: seq<Entry>)
    ensures |es| == |emails|
    ensures forall i :: 0 <= i < |emails| ==> es[i] == Entry(emails[i], activity, emails[i])
  {
    seq(|emails|, i requires 0 <= i < |emails| => Entry(emails[i], activity, emails[i]))
  }

  /** Splits `r` before its first `d`. */
  function TakeUntil(r: string, d: char): (p: (string, string))
    ensures p.0 + p.1 == r
    ensures d !in p.0
    ensures p.1 == [] || p.1[0] == d
  {
    if r == [] then ([], [])
    else if r[0] == d then ([], r)
    else
      var (x, y) := TakeUntil(r[1..], d);
      assert [r[0]] + (x + y) == r;
      ([r[0]] + x, y)
  }

  /** The rest of `r` after the literal `lit`, if `r` starts with it. */
  function Skip(lit: string, r: string): (o: Option<string>)
    ensures o.Some? ==> |o.value| == |r| - |lit|
  {
    if lit <= r then Some(r[|lit|..]) else None
  }

  /** The text of `r` up to the literal `lit` that ends the field, and what
      follows `lit`; the field stops at the first character of `lit`. */
  function Field(r: string, lit: string): (o: Option<(string, string)>)
    requires |lit| > 0
    ensures o.Some? ==> |o.value.1| <= |r| - |lit|
  {
    var (x, y) := TakeUntil(r, lit[0]);
    if lit <= y then Some((x, y[|lit|..])) else None
  }

  function ReadItem(r: string): (o: Option<(Entry, string)>)
    ensures o.Some? ==> |o.value.1| < |r|
  {
    var r0 :- Skip(ItemOpen, r);
    var (text, r1) :- Field(r0, ItemAfterText);
    var (activity, r2) :- Field(r1, ItemAfterActivity);
    var (email, rest) :- Field(r2, ItemClose);
    Some((Entry(Unescape(text), Unescape(activity), Unescape(email)), rest))
  }

  /** Items up to the closing `</ul>`, which must end `r`. */
  function ReadItems(r: string): Option<seq<Entry>>
    decreases |r|
  {
    if r == "</ul>" then Some([])
    else
      var (e, rest) :- ReadItem(r);
      var es :- ReadItems(rest);
      Some([e] + es)
  }

  function ReadParticipants(r: string): Option<seq<Entry>> {
    if r == EmptyState then Some([])
    else
      var items :- Skip("<ul>", r);
      ReadItems(items)
  }

  function ReadCard(r: string): Option<CardView> {
    var r0 :- Skip(CardOpen, r);
    var (name, r1) :- Field(r0, AfterName);
    var (description, r2) :- Field(r1, AfterDescription);
    var (schedule, r3) :- Field(r2, AfterSchedule);
    var (spots, body) :- Field(r3, AfterSpots);
    var n :- ParseInt(spots);
    if |body| < |CardClose| || body[|body| - |CardClose|..] != CardClose then None
    else
      var es :- ReadParticipants(body[..|body| - |CardClose|]);
      Some(CardView(Unescape(name), Unescape(description), Unescape(schedule), n, es))
  }

  // ---------------------------------------------------------------------
  // Round trips.

  /** Each literal that ends a field starts with the character that stops
      the field before it. */
  lemma Delimiters()
    ensures ItemOpen[1] == 'l' && ItemAfterText[0] == '<'
    ensures ItemAfterActivity[0] == '"' && ItemClose[0] == '"'
    ensures AfterName[0] == '<' && AfterDescription[0] == '<' && AfterSchedule[0] == '<'
    ensures AfterSpots[0] == ' '
    ensures EmptyState[1] == 'p'
  {
  }

  lemma Assoc(a: string, b: string, c: string)
    ensures (a + b) + c == a + (b + c)
  {
  }

  lemma {:induction false} TakeUntilStops(x: string, d: char, y: string)
    requires d !in x && |y| > 0 && y[0] == d
    ensures TakeUntil(x + y, d) == (x, y)
  {
    if x == [] {
      assert x + y == y;
    } else {
      assert (x + y)[0] == x[0] && (x + y)[1..] == x[1..] + y;
      TakeUntilStops(x[1..], d, y);
      assert [x[0]] + x[1..] == x;
    }
  }

  lemma SkipLiteral(lit: string, rest: string)
    ensures Skip(lit, lit + rest) == Some(rest)
  {
    assert (lit + rest)[|lit|..] == rest;
  }

  /** A field free of the first character of the literal after it reads
      back whole. */
  lemma FieldStops(x: string, lit: string, rest: string)
    requires |lit| > 0 && lit[0] !in x
    ensures Field(x + (lit + rest), lit) == Some((x, rest))
  {
    TakeUntilStops(x, lit[0], lit + rest);
    assert (lit + rest)[|lit|..] == rest;
  }

  lemma EscapedHasNoDelimiters(s: string)
    ensures '<' !in EscapeHtml(s) && '"' !in EscapeHtml(s)
  {
    var r := EscapeHtml(s);
    assert forall i :: 0 <= i < |r| ==> r[i] != '<' && r[i] != '"';
  }

  lemma IntToStringHasNoSpace(n: int)
    ensures ' ' !in IntToString(n)
  {
    var r := IntToString(n);
    assert forall i :: 0 < i < |r| ==> r[i] != ' ';
  }

  /** The item of `email` reads back as its email, the activity name and
      the email again, and reading stops right after it. */
  lemma ReadParticipantItem(activity: string, email: string, rest: string)
    ensures ReadItem(ParticipantItem(activity, email) + rest) == Some((Entry(email, activity, email), rest))
  {
    var e, a := EscapeHtml(email), EscapeHtml(activity);
    EscapedHasNoDelimiters(email);
    EscapedHasNoDelimiters(activity);
    var t2 := e + (ItemClose + rest);
    var t1 := a + (ItemAfterActivity + t2);
    var t0 := e + (ItemAfterText + t1);
    Assoc(ItemOpen + e + ItemAfterText + a + ItemAfterActivity + e, ItemClose, rest);
    Assoc(ItemOpen + e + ItemAfterText + a + ItemAfterActivity, e, ItemClose + rest);
    Assoc(ItemOpen + e + ItemAfterText + a, ItemAfterActivity, t2);
    Assoc(ItemOpen + e + ItemAfterText, a, ItemAfterActivity + t2);
    Assoc(ItemOpen + e, ItemAfterText, t1);
    Assoc(ItemOpen, e, ItemAfterText + t1);
    assert ParticipantItem(activity, email) + rest == ItemOpen + t0;
    SkipLiteral(ItemOpen, t0);
    Delimiters();
    FieldStops(e, ItemAfterText, t1);
    FieldStops(a, ItemAfterActivity, t2);
    FieldStops(e, ItemClose, rest);
    UnescapeEscape(email);
    UnescapeEscape(activity);
  }

  lemma ReadItemsCons(r: string, e: Entry, rest: string, es: seq<Entry>)
    requires r != "</ul>" && ReadItem(r) == Some((e, rest)) && ReadItems(rest) == Some(es)
    ensures ReadItems(r) == Some([e] + es)
  {
  }

  lemma ItemIsNotClose(activity: string, email: string, rest: string)
    ensures ParticipantItem(activity, email) + rest != "</ul>"
  {
    Delimiters();
    assert (ParticipantItem(activity, email) + rest)[1] == 'l';
  }

  lemma EntriesCons(activity: string, emails: seq<string>)
    requires emails != []
    ensures Entries(activity, emails) == [Entry(emails[0], activity, emails[0])] + Entries(activity, emails[1..])
  {
  }

  lemma {:induction false} ReadJoinedItems(activity: string, emails: seq<string>)
    ensures ReadItems(JoinItems(activity, emails) + "</ul>") == Some(Entries(activity, emails))
  {
    if emails == [] {
      assert JoinItems(activity, emails) + "</ul>" == "</ul>";
    } else {
      var item := ParticipantItem(activity, emails[0]);
      var rest := JoinItems(activity, emails[1..]) + "</ul>";
      Assoc(item, JoinItems(activity, emails[1..]), "</ul>");
      ItemIsNotClose(activity, emails[0], rest);
      ReadParticipantItem(activity, emails[0], rest);
      ReadJoinedItems(activity, emails[1..]);
      ReadItemsCons(item + rest, Entry(emails[0], activity, emails[0]), rest, Entries(activity, emails[1..]));
      EntriesCons(activity, emails);
    }
  }

  /** An empty list reads back as the empty state with no item and no
      button; otherwise there is one item per participant, in list order,
      whose text and `data-email` are the participant's email and whose
      `data-activity` is the activity's name. */
  lemma ReadParticipantsHtml(activity: string, emails: seq<string>)
    ensures emails == [] ==> ParticipantsHtml(activity, emails) == EmptyState
    ensures ReadParticipants(ParticipantsHtml(activity, emails)) == Some(Entries(activity, emails))
  {
    if emails != [] {
      Assoc("<ul>", JoinItems(activity, emails), "</ul>");
      SkipLiteral("<ul>", JoinItems(activity, emails) + "</ul>");
      ReadJoinedItems(activity, emails);
    }
  }

  /** The card's concatenation, regrouped from the right. */
  lemma CardNested(c0: string, c1: string, c2: string, c3: string, c4: string, c5: string,
                   n: string, d: string, s: string, k: string, p: string)
    ensures c0 + n + c1 + d + c2 + s + c3 + k + c4 + p + c5
            == c0 + (n + (c1 + (d + (c2 + (s + (c3 + (k + (c4 + (p + c5)))))))))
  {
    var t4 := c4 + (p + c5);
    var t3 := c3 + (k + t4);
    var t2 := c2 + (s + t3);
    var t1 := c1 + (d + t2);
    Assoc(c0 + n + c1 + d + c2 + s + c3 + k + c4, p, c5);
    Assoc(c0 + n + c1 + d + c2 + s + c3 + k, c4, p + c5);
    Assoc(c0 + n + c1 + d + c2 + s + c3, k, t4);
    Assoc(c0 + n + c1 + d + c2 + s, c3, k + t4);
    Assoc(c0 + n + c1 + d + c2, s, t3);
    Assoc(c0 + n + c1 + d, c2, s + t3);
    Assoc(c0 + n + c1, d, t2);
    Assoc(c0 + n, c1, d + t2);
    Assoc(c0, n, t1);
  }

  /** A card template whose fields hold none of the characters that end
      them reads back field by field. */
  lemma ReadCardFields(n: string, d: string, s: string, k: string, p: string, v: int, es: seq<Entry>)
    requires '<' !in n && '<' !in d && '<' !in s && ' ' !in k
    requires ParseInt(k) == Some(v) && ReadParticipants(p) == Some(es)
    ensures ReadCard(CardOpen + (n + (AfterName + (d + (AfterDescription + (s + (AfterSchedule
                       + (k + (AfterSpots + (p + CardClose))))))))))
            == Some(CardView(Unescape(n), Unescape(d), Unescape(s), v, es))
  {
    var body := p + CardClose;
    var t3 := k + (AfterSpots + body);
    var t2 := s + (AfterSchedule + t3);
    var t1 := d + (AfterDescription + t2);
    var t0 := n + (AfterName + t1);
    SkipLiteral(CardOpen, t0);
    Delimiters();
    FieldStops(n, AfterName, t1);
    FieldStops(d, AfterDescription, t2);
    FieldStops(s, AfterSchedule, t3);
    FieldStops(k, AfterSpots, body);
    assert body[|body| - |CardClose|..] == CardClose;
    assert body[..|body| - |CardClose|] == p;
  }

  /** A card reads back as the activity's name, description and schedule,
      the unclamped spots-left figure and its participants' entries. */
  lemma ReadCardHtml(name: string, a: Activity)
    ensures ReadCard(CardHtml(name, a))
            == Some(CardView(name, a.description, a.schedule,
                             a.maxParticipants - |a.participants|,
                             Entries(name, a.participants)))
  {
    var n, d, s := EscapeHtml(name), EscapeHtml(a.description), EscapeHtml(a.schedule);
    var k := IntToString(SpotsLeft(a));
    var p := ParticipantsHtml(name, a.participants);
    EscapedHasNoDelimiters(name);
    EscapedHasNoDelimiters(a.description);
    EscapedHasNoDelimiters(a.schedule);
    IntToStringHasNoSpace(SpotsLeft(a));
    var nested := CardOpen + (n + (AfterName + (d + (AfterDescription + (s + (AfterSchedule
                    + (k + (AfterSpots + (p + CardClose)))))))));
    assert CardHtml(name, a) == nested by {
      CardNested(CardOpen, AfterName, AfterDescription, AfterSchedule, AfterSpots, CardClose, n, d, s, k, p);
    }
    ParseIntToString(SpotsLeft(a));
    ReadParticipantsHtml(name, a.participants);
    ReadCardFields(n, d, s, k, p, SpotsLeft(a), Entries(name, a.participants));
    UnescapeEscape(name);
    UnescapeEscape(a.description);
    UnescapeEscape(a.schedule);
  }

  // ---------------------------------------------------------------------
  // No markup from the server: the tag and quote characters of a card do
  // not depend on the server-supplied text in it.

  /** The characters of `s` that open or close a tag or an attribute
      value, in order. */
  function Markup(s: string): string {
    if s == [] then [] else (if IsMarkup(s[0]) then [s[0]] else []) + Markup(s[1..])
  }

  lemma {:induction false} MarkupConcat(a: string, b: string)
    ensures Markup(a + b) == Markup(a) + Markup(b)
  {
    if a == [] {
      assert a + b == b;
    } else {
      var h := if IsMarkup(a[0]) then [a[0]] else [];
      assert (a + b)[0] == a[0] && (a + b)[1..] == a[1..] + b;
      assert Markup(a + b) == h + Markup(a[1..] + b);
      MarkupConcat(a[1..], b);
      Assoc(h, Markup(a[1..]), Markup(b));
    }
  }

  lemma {:induction false} MarkupFree(s: string)
    requires forall i :: 0 <= i < |s| ==> !IsMarkup(s[i])
    ensures Markup(s) == []
  {
    if s != [] {
      assert forall i :: 0 <= i < |s[1..]| ==> s[1..][i] == s[i + 1];
      MarkupFree(s[1..]);
    }
  }

  /** The markup of an item template whose holes hold no markup. */
  lemma ItemTemplateMarkup(o: string, t: string, aa: string, c: string, e: string, a: string)
    requires Markup(e) == [] && Markup(a) == []
    ensures Markup(o + e + t + a + aa + e + c) == Markup(o) + Markup(t) + Markup(aa) + Markup(c)
  {
    AppendFree(o, e);
    MarkupConcat(o + e, t);
    AppendFree(o + e + t, a);
    MarkupConcat(o + e + t + a, aa);
    AppendFree(o + e + t + a + aa, e);
    MarkupConcat(o + e + t + a + aa + e, c);
  }

  /** Items that differ only in their activity name and email have the
      same markup. */
  lemma ItemMarkupSame(activity1: string, email1: string, activity2: string, email2: string)
    ensures Markup(ParticipantItem(activity1, email1)) == Markup(ParticipantItem(activity2, email2))
  {
    var e1, a1 := EscapeHtml(email1), EscapeHtml(activity1);
    var e2, a2 := EscapeHtml(email2), EscapeHtml(activity2);
    MarkupFree(e1);
    MarkupFree(a1);
    MarkupFree(e2);
    MarkupFree(a2);
    ItemTemplateMarkup(ItemOpen, ItemAfterText, ItemAfterActivity, ItemClose, e1, a1);
    ItemTemplateMarkup(ItemOpen, ItemAfterText, ItemAfterActivity, ItemClose, e2, a2);
  }

  lemma {:induction false} JoinMarkupSame(activity1: string, emails1: seq<string>,
                                          activity2: string, emails2: seq<string>)
    requires |emails1| == |emails2|
    ensures Markup(JoinItems(activity1, emails1)) == Markup(JoinItems(activity2, emails2))
  {
    if emails1 != [] {
      MarkupConcat(ParticipantItem(activity1, emails1[0]), JoinItems(activity1, emails1[1..]));
      MarkupConcat(ParticipantItem(activity2, emails2[0]), JoinItems(activity2, emails2[1..]));
      ItemMarkupSame(activity1, emails1[0], activity2, emails2[0]);
      JoinMarkupSame(activity1, emails1[1..], activity2, emails2[1..]);
    }
  }

  lemma ParticipantsMarkupSame(activity1: string, emails1: seq<string>,
                               activity2: string, emails2: seq<string>)
    requires |emails1| == |emails2|
    ensures Markup(ParticipantsHtml(activity1, emails1)) == Markup(ParticipantsHtml(activity2, emails2))
  {
    if emails1 != [] {
      MarkupConcat("<ul>" + JoinItems(activity1, emails1), "</ul>");
      MarkupConcat("<ul>", JoinItems(activity1, emails1));
      MarkupConcat("<ul>" + JoinItems(activity2, emails2), "</ul>");
      MarkupConcat("<ul>", JoinItems(activity2, emails2));
      JoinMarkupSame(activity1, emails1, activity2, emails2);
    }
  }

  lemma AppendFree(x: string, h: string)
    requires Markup(h) == []
    ensures Markup(x + h) == Markup(x)
  {
    MarkupConcat(x, h);
    assert Markup(x) + [] == Markup(x);
  }

  lemma CardTemplateMarkup(c0: string, c1: string, c2: string, c3: string, c4: string, c5: string,
                           n: string, d: string, s: string, k: string, p: string)
    requires Markup(n) == [] && Markup(d) == [] && Markup(s) == [] && Markup(k) == []
    ensures Markup(c0 + n + c1 + d + c2 + s + c3 + k + c4 + p + c5)
            == Markup(c0) + Markup(c1) + Markup(c2) + Markup(c3) + Markup(c4) + Markup(p) + Markup(c5)
  {
    AppendFree(c0, n);
    MarkupConcat(c0 + n, c1);
    AppendFree(c0 + n + c1, d);
    MarkupConcat(c0 + n + c1 + d, c2);
    AppendFree(c0 + n + c1 + d + c2, s);
    MarkupConcat(c0 + n + c1 + d + c2 + s, c3);
    AppendFree(c0 + n + c1 + d + c2 + s + c3, k);
    MarkupConcat(c0 + n + c1 + d + c2 + s + c3 + k, c4);
    MarkupConcat(c0 + n + c1 + d + c2 + s + c3 + k + c4, p);
    MarkupConcat(c0 + n + c1 + d + c2 + s + c3 + k + c4 + p, c5);
  }

  /** The markup of a card: its template's, with that of its participants
      fragment in place. */
  lemma CardMarkup(name: string, a: Activity)
    ensures Markup(CardHtml(name, a))
            == Markup(CardOpen) + Markup(AfterName) + Markup(AfterDescription) + Markup(AfterSchedule)
               + Markup(AfterSpots) + Markup(ParticipantsHtml(name, a.participants)) + Markup(CardClose)
  {
    var n, d, s := EscapeHtml(name), EscapeHtml(a.description), EscapeHtml(a.schedule);
    var k := IntToString(SpotsLeft(a));
    MarkupFree(n);
    MarkupFree(d);
    MarkupFree(s);
    MarkupFree(k);
    CardTemplateMarkup(CardOpen, AfterName, AfterDescription, AfterSchedule, AfterSpots, CardClose,
                       n, d, s, k, ParticipantsHtml(name, a.participants));
  }

  /** Two cards with as many participants have the same tags and quotes,
      whatever the names, descriptions, schedules, capacities and emails:
      server-supplied text cannot open or close an element or an
      attribute value. */
  lemma CardMarkupIndependent(name1: string, a1: Activity, name2: string, a2: Activity)
    requires |a1.participants| == |a2.participants|
    ensures Markup(CardHtml(name1, a1)) == Markup(CardHtml(name2, a2))
  {
    CardMarkup(name1, a1);
    CardMarkup(name2, a2);
    ParticipantsMarkupSame(name1, a1.participants, name2, a2.participants);
  }
}
