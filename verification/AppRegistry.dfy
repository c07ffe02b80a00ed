/**
 The registry of installed applications: the context-menu syntax of the dock,
 "Label1|Label2>sub1,sub2|@App", and the list of entries with its pins.

 Labels end in NUL as the C side expects them.  Their bytes are characters here.
 */
module AppRegistry {
  import Text
  import opened Wrappers

  datatype AppManifest = AppManifest(
    folderName: string, displayName: string, iconRel: string, diamondColor: nat, dockMenuItems: string)

  datatype MenuItem = MenuItem(labelC: string, submenuC: seq<string>)

  function Terminated(s: string): string {
    s + "\0"
  }

  // ---------------------------------------------------------------------
  // The menu syntax
  // ---------------------------------------------------------------------

  /** The text before and after the first '>', if there is one. */
  function SplitOnce(s: string): Option<(string, string)> {
    if '>' in s then
      var title := Text.Head(s, '>');
      HeadStopsAt(s, '>');
      Some((title, s[|title| + 1..]))
    else None
  }

  lemma {:induction false} HeadStopsAt(s: string, c: char)
    requires c in s
    ensures |Text.Head(s, c)| < |s| && s[|Text.Head(s, c)|] == c
    ensures Text.Head(s, c) == s[..|Text.Head(s, c)|] && Text.Free(Text.Head(s, c), c)
  {
    if s[0] != c {
      HeadStopsAt(s[1..], c);
    }
  }

  /** What `f` makes of the pieces, one after the other. */
  function FlatMap<T>(f: string -> seq<T>, pieces: seq<string>): seq<T> {
    if pieces == [] then [] else FlatMap(f, pieces[..|pieces| - 1]) + f(pieces[|pieces| - 1])
  }

  lemma {:induction false} FlatMapAppend<T>(f: string -> seq<T>, a: seq<string>, b: seq<string>)
    ensures FlatMap(f, a + b) == FlatMap(f, a) + FlatMap(f, b)
  {
    if b == [] {
      assert a + b == a;
    } else {
      assert (a + b)[..|a + b| - 1] == a + b[..|b| - 1];
      FlatMapAppend(f, a, b[..|b| - 1]);
    }
  }

  lemma FlatMapSingle<T>(f: string -> seq<T>, piece: string)
    ensures FlatMap(f, [piece]) == f(piece)
  {
    var pieces: seq<string> := [piece];
    assert pieces[..0] == [];
  }

  lemma {:induction false} FlatMapEqual<T>(f: string -> seq<T>, g: string -> seq<T>, pieces: seq<string>)
    requires forall i :: 0 <= i < |pieces| ==> f(pieces[i]) == g(pieces[i])
    ensures FlatMap(f, pieces) == FlatMap(g, pieces)
  {
    if pieces != [] {
      FlatMapEqual(f, g, pieces[..|pieces| - 1]);
    }
  }

  /** When `f` makes one element of each piece, that is the element at its place. */
  lemma {:induction false} FlatMapOneEach<T>(f: string -> seq<T>, pieces: seq<string>, out: seq<T>)
    requires |out| == |pieces| && forall i :: 0 <= i < |pieces| ==> f(pieces[i]) == [out[i]]
    ensures FlatMap(f, pieces) == out
  {
    if pieces != [] {
      FlatMapOneEach(f, pieces[..|pieces| - 1], out[..|pieces| - 1]);
    }
  }

  /** Everything `f` makes satisfies what each of its results satisfies. */
  lemma {:induction false} FlatMapAll<T(!new)>(f: string -> seq<T>, pieces: seq<string>, good: T -> bool)
    requires forall i, j :: 0 <= i < |pieces| && 0 <= j < |f(pieces[i])| ==> good(f(pieces[i])[j])
    ensures forall i :: 0 <= i < |FlatMap(f, pieces)| ==> good(FlatMap(f, pieces)[i])
  {
    if pieces != [] {
      FlatMapAll(f, pieces[..|pieces| - 1], good);
    }
  }

  function SubPiece(piece: string): seq<string> {
    var sub := Text.Trim(piece);
    if sub == "" then [] else [Terminated(sub)]
  }

  /** The pieces that are not blank, trimmed and terminated. */
  function Submenu(pieces: seq<string>): seq<string> {
    FlatMap(SubPiece, pieces)
  }

  /** The item of a part that is not a reference; none without a label. */
  function ParsePart(part: string): seq<MenuItem> {
    var (title, subs) := match SplitOnce(part)
                         case Some((l, s)) => (Text.Trim(l), s)
                         case None => (part, "");
    if title == "" then []
    else [MenuItem(Terminated(title), Submenu(Text.Split(subs, ',')))]
  }

  predicate IsRef(part: string) {
    part != "" && part[0] == '@'
  }

  /** References are left out. */
  function RawPart(piece: string): seq<MenuItem> {
    var part := Text.Trim(piece);
    if part == "" || IsRef(part) then [] else ParsePart(part)
  }

  function ParseRaw(raw: string): seq<MenuItem> {
    FlatMap(RawPart, Text.Split(raw, '|'))
  }

  function FindApp(name: string, apps: seq<AppManifest>): Option<AppManifest> {
    if apps == [] then None
    else if apps[0].folderName == name then Some(apps[0])
    else FindApp(name, apps[1..])
  }

  /** The own items of the application referred to, at one depth. */
  function ResolveMenuRef(name: string, apps: seq<AppManifest>): seq<MenuItem> {
    match FindApp(name, apps)
    case Some(a) => ParseRaw(a.dockMenuItems)
    case None => []
  }

  function Part(piece: string, apps: seq<AppManifest>): seq<MenuItem> {
    var part := Text.Trim(piece);
    if part == "" then []
    else if IsRef(part) then ResolveMenuRef(Text.Trim(part[1..]), apps)
    else ParsePart(part)
  }

  function PartWith(apps: seq<AppManifest>): string -> seq<MenuItem> {
    (piece: string) => Part(piece, apps)
  }

  function Parse(raw: string, apps: seq<AppManifest>): seq<MenuItem> {
    FlatMap(PartWith(apps), Text.Split(raw, '|'))
  }

  method ParseSubmenu(subsRaw: string) returns (submenu: seq<string>)
    ensures submenu == Submenu(Text.Split(subsRaw, ','))
  {
    var pieces := Text.Split(subsRaw, ',');
    submenu := [];
    for i := 0 to |pieces|
      invariant submenu == Submenu(pieces[..i])
    {
      assert pieces[..i + 1][..i] == pieces[..i];
      var sub := Text.Trim(pieces[i]);
      if sub == "" {
        continue;
      }
      submenu := submenu + [Terminated(sub)];
    }
    assert pieces[..|pieces|] == pieces;
  }

  method ParseDockMenuItemsRaw(raw: string) returns (items: seq<MenuItem>)
    ensures items == ParseRaw(raw)
  {
    var pieces := Text.Split(raw, '|');
    items := [];
    for i := 0 to |pieces|
      invariant items == FlatMap(RawPart, pieces[..i])
    {
      assert pieces[..i + 1][..i] == pieces[..i];
      var part := Text.Trim(pieces[i]);
      if part == "" || part[0] == '@' {
        continue;
      }
      var once := SplitOnce(part);
      var title := if once.Some? then Text.Trim(once.value.0) else part;
      var subsRaw := if once.Some? then once.value.1 else "";
      if title == "" {
        continue;
      }
      var submenu := ParseSubmenu(subsRaw);
      items := items + [MenuItem(Terminated(title), submenu)];
    }
    assert pieces[..|pieces|] == pieces;
  }

  method ParseDockMenuItems(raw: string, apps: seq<AppManifest>) returns (items: seq<MenuItem>)
    ensures items == Parse(raw, apps)
  {
    var pieces := Text.Split(raw, '|');
    items := [];
    for i := 0 to |pieces|
      invariant items == FlatMap(PartWith(apps), pieces[..i])
    {
      assert pieces[..i + 1][..i] == pieces[..i];
      var part := Text.Trim(pieces[i]);
      if part == "" {
        continue;
      }
      if part[0] == '@' {
        items := items + ResolveMenuRef(Text.Trim(part[1..]), apps);
        continue;
      }
      var once := SplitOnce(part);
      var title := if once.Some? then Text.Trim(once.value.0) else part;
      var subsRaw := if once.Some? then once.value.1 else "";
      if title == "" {
        continue;
      }
      var submenu := ParseSubmenu(subsRaw);
      items := items + [MenuItem(Terminated(title), submenu)];
    }
    assert pieces[..|pieces|] == pieces;
  }

  // ---------------------------------------------------------------------
  // Laws of the parser
  // ---------------------------------------------------------------------

  /** Menus joined by '|' parse to the items of both, for all texts. */
  lemma ParseIsAdditive(a: string, b: string, apps: seq<AppManifest>)
    ensures Parse(a + "|" + b, apps) == Parse(a, apps) + Parse(b, apps)
  {
    Text.SplitConcat(a, '|', b);
    FlatMapAppend(PartWith(apps), Text.Split(a, '|'), Text.Split(b, '|'));
  }

  lemma ReferencePart(blanks: string, name: string, apps: seq<AppManifest>)
    requires Text.Blank(blanks)
    ensures Part(blanks + "@" + name, apps) == ResolveMenuRef(Text.Trim(name), apps)
  {
    var ref := blanks + "@" + name;
    Text.TrimStartBlanks(blanks, "@" + name);
    assert ref == blanks + ("@" + name);
    Text.TrimEndKeepsFront("@", name);
    assert Text.Trim(ref) == "@" + Text.TrimEnd(name);
    assert Text.Trim(ref)[1..] == Text.TrimEnd(name);
    Text.TrimOfTrimEnd(name);
  }

  lemma ReferenceParses(blanks: string, name: string, apps: seq<AppManifest>)
    requires Text.Blank(blanks) && Text.Free(name, '|')
    ensures Parse(blanks + "@" + name, apps) == ResolveMenuRef(Text.Trim(name), apps)
  {
    var ref := blanks + "@" + name;
    ReferencePart(blanks, name, apps);
    Text.SplitFree(ref, '|');
    FlatMapSingle(PartWith(apps), ref);
  }

  /** The first application of that name. */
  predicate FirstCalled(apps: seq<AppManifest>, name: string, k: nat) {
    && k < |apps| && apps[k].folderName == name
    && forall j :: 0 <= j < k ==> apps[j].folderName != name
  }

  lemma {:induction false} FindsFirstCalled(name: string, apps: seq<AppManifest>)
    ensures match FindApp(name, apps)
            case Some(a) => exists k: nat :: FirstCalled(apps, name, k) && a == apps[k]
            case None => forall k :: 0 <= k < |apps| ==> apps[k].folderName != name
  {
    if apps != [] && apps[0].folderName != name {
      FindsFirstCalled(name, apps[1..]);
      if FindApp(name, apps[1..]).Some? {
        var k: nat :| FirstCalled(apps[1..], name, k) && FindApp(name, apps[1..]).value == apps[1..][k];
        assert forall j :: 1 <= j < |apps| ==> apps[j] == apps[1..][j - 1];
        assert FirstCalled(apps, name, k + 1);
      } else {
        assert forall j :: 1 <= j < |apps| ==> apps[j] == apps[1..][j - 1];
      }
    } else if apps != [] {
      assert FirstCalled(apps, name, 0);
    }
  }

  /** Only one application is the first of its name. */
  lemma FoundIsFirst(name: string, apps: seq<AppManifest>, k: nat)
    requires FirstCalled(apps, name, k)
    ensures FindApp(name, apps) == Some(apps[k])
  {
    FindsFirstCalled(name, apps);
    var j: nat :| FirstCalled(apps, name, j) && FindApp(name, apps) == Some(apps[j]);
    assert j == k;
  }

  lemma ResolvesTheFirst(name: string, apps: seq<AppManifest>)
    ensures forall k: nat :: FirstCalled(apps, name, k) ==>
              ResolveMenuRef(name, apps) == ParseRaw(apps[k].dockMenuItems)
    ensures (forall k :: 0 <= k < |apps| ==> apps[k].folderName != name) ==> ResolveMenuRef(name, apps) == []
  {
    FindsFirstCalled(name, apps);
    forall k: nat | FirstCalled(apps, name, k)
      ensures ResolveMenuRef(name, apps) == ParseRaw(apps[k].dockMenuItems)
    {
      FoundIsFirst(name, apps, k);
    }
  }

  lemma ReferenceIsResolved(before: string, blanks: string, name: string, after: string, apps: seq<AppManifest>)
    requires Text.Blank(blanks) && Text.Free(name, '|')
    ensures Parse(before + "|" + (blanks + "@" + name + "|" + after), apps)
            == Parse(before, apps) + ResolveMenuRef(Text.Trim(name), apps) + Parse(after, apps)
  {
    ParseIsAdditive(before, blanks + "@" + name + "|" + after, apps);
    ParseIsAdditive(blanks + "@" + name, after, apps);
    ReferenceParses(blanks, name, apps);
  }

  /**
   A reference is replaced by the own items of the first application of that name,
   wherever it stands and with whatever blanks before the mark and around the
   name, and by nothing if there is none.
   */
  lemma ReferenceExpands(before: string, blanks: string, name: string, after: string, apps: seq<AppManifest>)
    requires Text.Blank(blanks) && Text.Free(name, '|')
    ensures var items := Parse(before + "|" + (blanks + "@" + name + "|" + after), apps);
            && (forall k: nat :: FirstCalled(apps, Text.Trim(name), k) ==>
                  items == Parse(before, apps) + ParseRaw(apps[k].dockMenuItems) + Parse(after, apps))
            && ((forall k :: 0 <= k < |apps| ==> apps[k].folderName != Text.Trim(name)) ==>
                  items == Parse(before, apps) + Parse(after, apps))
  {
    ReferenceIsResolved(before, blanks, name, after, apps);
    ResolvesTheFirst(Text.Trim(name), apps);
    NothingBetween(Parse(before, apps), Parse(after, apps));
  }

  lemma NothingBetween(front: seq<MenuItem>, back: seq<MenuItem>)
    ensures front + [] + back == front + back
  {
  }

  predicate NoRefs(pieces: seq<string>) {
    forall i :: 0 <= i < |pieces| ==> !IsRef(Text.Trim(pieces[i]))
  }

  lemma NoRefsParseRaw(pieces: seq<string>, apps: seq<AppManifest>)
    requires NoRefs(pieces)
    ensures FlatMap(PartWith(apps), pieces) == FlatMap(RawPart, pieces)
  {
    FlatMapEqual(PartWith(apps), RawPart, pieces);
  }

  /** Without '@' the two parsers agree, whatever is installed. */
  lemma AtFreeParsesRaw(raw: string, apps: seq<AppManifest>)
    requires Text.Free(raw, '@')
    ensures Parse(raw, apps) == ParseRaw(raw)
  {
    var pieces := Text.Split(raw, '|');
    forall i | 0 <= i < |pieces|
      ensures !IsRef(Text.Trim(pieces[i]))
    {
      var part := Text.Trim(pieces[i]);
      Text.TrimTrims(pieces[i]);
      if part != "" {
        assert part[0] in pieces[i];
        Text.SplitKeepsChars(raw, '|', i, part[0]);
      }
    }
    NoRefsParseRaw(pieces, apps);
  }

  // ---------------------------------------------------------------------
  // The printer
  // ---------------------------------------------------------------------

  /** An item before termination. */
  datatype Item = Item(title: string, subs: seq<string>)

  function Strings(subs: seq<string>): seq<string> {
    seq(|subs|, i requires 0 <= i < |subs| => Terminated(subs[i]))
  }

  function ToMenu(items: seq<Item>): seq<MenuItem> {
    seq(|items|, i requires 0 <= i < |items| => MenuItem(Terminated(items[i].title), Strings(items[i].subs)))
  }

  function PrintItem(it: Item): string {
    if it.subs == [] then it.title else it.title + ">" + Text.Join(it.subs, ',')
  }

  function PrintAll(items: seq<Item>): seq<string> {
    seq(|items|, i requires 0 <= i < |items| => PrintItem(items[i]))
  }

  function Print(items: seq<Item>): string {
    Text.Join(PrintAll(items), '|')
  }

  predicate GoodSub(s: string) {
    s != "" && Text.Trimmed(s) && Text.Free(s, ',') && Text.Free(s, '|')
  }

  predicate GoodLabel(s: string) {
    s != "" && Text.Trimmed(s) && Text.Free(s, '>') && Text.Free(s, '|') && s[0] != '@'
  }

  predicate WellFormed(it: Item) {
    GoodLabel(it.title) && forall i :: 0 <= i < |it.subs| ==> GoodSub(it.subs[i])
  }

  lemma SubmenuOfGood(subs: seq<string>)
    requires forall i :: 0 <= i < |subs| ==> GoodSub(subs[i])
    ensures Submenu(subs) == Strings(subs)
  {
    forall i | 0 <= i < |subs|
      ensures SubPiece(subs[i]) == [Strings(subs)[i]]
    {
      Text.TrimIsIdentity(subs[i]);
    }
    FlatMapOneEach(SubPiece, subs, Strings(subs));
  }

  lemma {:induction false} JoinEnds(parts: seq<string>, c: char)
    requires parts != [] && forall i :: 0 <= i < |parts| ==> parts[i] != ""
    ensures var s := Text.Join(parts, c);
            var last := parts[|parts| - 1];
            |s| > 0 && s[|s| - 1] == last[|last| - 1]
  {
    if |parts| > 1 {
      var rest := parts[1..];
      JoinEnds(rest, c);
      assert rest[|rest| - 1] == parts[|parts| - 1];
      EndOfConcat(parts[0] + [c], Text.Join(rest, c));
    }
  }

  lemma EndOfConcat(a: string, b: string)
    requires b != ""
    ensures (a + b)[|a + b| - 1] == b[|b| - 1]
  {
  }

  lemma {:induction false} JoinFree(parts: seq<string>, c: char, d: char)
    requires c != d && forall i :: 0 <= i < |parts| ==> Text.Free(parts[i], d)
    ensures Text.Free(Text.Join(parts, c), d)
  {
    if |parts| > 1 {
      JoinFree(parts[1..], c, d);
    }
  }

  lemma PrintedItemIsTrimmed(it: Item)
    requires WellFormed(it)
    ensures Text.Trim(PrintItem(it)) == PrintItem(it) && !IsRef(PrintItem(it)) && PrintItem(it) != ""
    ensures Text.Free(PrintItem(it), '|')
  {
    if it.subs != [] {
      JoinEnds(it.subs, ',');
      JoinFree(it.subs, ',', '|');
      var s, last := Text.Join(it.subs, ','), it.subs[|it.subs| - 1];
      assert GoodSub(last);
      assert PrintItem(it)[|PrintItem(it)| - 1] == s[|s| - 1];
    }
    Text.TrimIsIdentity(PrintItem(it));
  }

  lemma EmptySubmenu()
    ensures Submenu(Text.Split("", ',')) == []
  {
    FlatMapSingle(SubPiece, "");
  }

  lemma PrintedItemParses(it: Item)
    requires WellFormed(it)
    ensures RawPart(PrintItem(it)) == [MenuItem(Terminated(it.title), Strings(it.subs))]
  {
    PrintedItemIsTrimmed(it);
    var part := PrintItem(it);
    if it.subs == [] {
      EmptySubmenu();
      assert Strings(it.subs) == [];
    } else {
      var rest := Text.Join(it.subs, ',');
      assert part == it.title + ['>'] + rest;
      Text.HeadIsFirstField(it.title, '>', rest);
      assert part[|it.title|] == '>';
      assert part[|it.title| + 1..] == rest;
      Text.TrimIsIdentity(it.title);
      Text.SplitJoin(it.subs, ',');
      SubmenuOfGood(it.subs);
    }
  }

  lemma PrintedPartsParse(items: seq<Item>)
    requires forall i :: 0 <= i < |items| ==> WellFormed(items[i])
    ensures FlatMap(RawPart, PrintAll(items)) == ToMenu(items)
    ensures NoRefs(PrintAll(items))
  {
    var parts := PrintAll(items);
    forall i | 0 <= i < |items|
      ensures RawPart(parts[i]) == [ToMenu(items)[i]] && !IsRef(Text.Trim(parts[i]))
    {
      PrintedItemParses(items[i]);
      PrintedItemIsTrimmed(items[i]);
    }
    FlatMapOneEach(RawPart, parts, ToMenu(items));
  }

  /** Parsing a printed menu of well-formed items gives the items back. */
  lemma PrintedMenuParses(items: seq<Item>, apps: seq<AppManifest>)
    requires forall i :: 0 <= i < |items| ==> WellFormed(items[i])
    ensures ParseRaw(Print(items)) == ToMenu(items)
    ensures Parse(Print(items), apps) == ToMenu(items)
  {
    var parts := PrintAll(items);
    if items == [] {
      FlatMapSingle(PartWith(apps), "");
      FlatMapSingle(RawPart, "");
    } else {
      forall i | 0 <= i < |parts|
        ensures Text.Free(parts[i], '|')
      {
        PrintedItemIsTrimmed(items[i]);
      }
      Text.SplitJoin(parts, '|');
      PrintedPartsParse(items);
      NoRefsParseRaw(parts, apps);
    }
  }

  // ---------------------------------------------------------------------
  // What the parser can produce
  // ---------------------------------------------------------------------

  /** The text before the terminator. */
  function Unterminated(s: string): string {
    if s == "" then "" else s[..|s| - 1]
  }

  predicate GoodEntry(s: string) {
    GoodSub(Unterminated(s))
  }

  predicate GoodMenuItem(m: MenuItem) {
    && GoodLabel(Unterminated(m.labelC))
    && forall i :: 0 <= i < |m.submenuC| ==> GoodEntry(m.submenuC[i])
  }

  lemma TerminatedReads(s: string)
    ensures Unterminated(Terminated(s)) == s
  {
  }

  lemma SubPieceIsGood(piece: string)
    requires Text.Free(piece, ',') && Text.Free(piece, '|')
    ensures forall j :: 0 <= j < |SubPiece(piece)| ==> GoodEntry(SubPiece(piece)[j])
  {
    Text.TrimTrims(piece);
    TerminatedReads(Text.Trim(piece));
  }

  lemma SubmenusAreGood(pieces: seq<string>)
    requires forall i :: 0 <= i < |pieces| ==> Text.Free(pieces[i], ',') && Text.Free(pieces[i], '|')
    ensures forall i :: 0 <= i < |Submenu(pieces)| ==> GoodEntry(Submenu(pieces)[i])
  {
    forall i, j | 0 <= i < |pieces| && 0 <= j < |SubPiece(pieces[i])|
      ensures GoodEntry(SubPiece(pieces[i])[j])
    {
      SubPieceIsGood(pieces[i]);
    }
    FlatMapAll(SubPiece, pieces, GoodEntry);
  }

  lemma TrimKeepsFirst(s: string)
    requires s != "" && !Text.IsWhite(s[0])
    ensures Text.Trim(s) != "" && Text.Trim(s)[0] == s[0]
  {
    Text.TrimEndEnds(s);
    TrimEndKeeps(s);
  }

  lemma {:induction false} TrimEndKeeps(s: string)
    requires s != "" && !Text.IsWhite(s[0])
    ensures Text.TrimEnd(s) != ""
  {
    if |s| > 1 && Text.IsWhite(s[|s| - 1]) {
      TrimEndKeeps(s[..|s| - 1]);
    }
  }

  lemma LabelIsGood(part: string)
    requires part != "" && Text.Trimmed(part) && !IsRef(part) && Text.Free(part, '|')
    ensures match SplitOnce(part)
            case Some((l, _)) => Text.Trim(l) == "" || GoodLabel(Text.Trim(l))
            case None => GoodLabel(part)
  {
    if '>' in part {
      HeadStopsAt(part, '>');
      var l := Text.Head(part, '>');
      Text.TrimTrims(l);
      if l != "" {
        assert l[0] == part[0];
        TrimKeepsFirst(l);
      }
    }
  }

  lemma RawPartIsGood(piece: string)
    requires Text.Free(piece, '|')
    ensures forall i :: 0 <= i < |RawPart(piece)| ==> GoodMenuItem(RawPart(piece)[i])
  {
    var part := Text.Trim(piece);
    Text.TrimTrims(piece);
    if part != "" && !IsRef(part) {
      LabelIsGood(part);
      var once := SplitOnce(part);
      var title := if once.Some? then Text.Trim(once.value.0) else part;
      var subs := if once.Some? then once.value.1 else "";
      var pieces := Text.Split(subs, ',');
      forall i | 0 <= i < |pieces|
        ensures Text.Free(pieces[i], ',') && Text.Free(pieces[i], '|')
      {
        Text.SplitPartsFree(subs, ',');
        if '|' in pieces[i] {
          Text.SplitKeepsChars(subs, ',', i, '|');
        }
      }
      SubmenusAreGood(pieces);
      TerminatedReads(title);
    }
  }

  lemma ParsedItemsAreGood(raw: string)
    ensures forall i :: 0 <= i < |ParseRaw(raw)| ==> GoodMenuItem(ParseRaw(raw)[i])
  {
    var pieces := Text.Split(raw, '|');
    Text.SplitPartsFree(raw, '|');
    forall i | 0 <= i < |pieces|
      ensures forall j :: 0 <= j < |RawPart(pieces[i])| ==> GoodMenuItem(RawPart(pieces[i])[j])
    {
      RawPartIsGood(pieces[i]);
    }
    FlatMapAll(RawPart, pieces, m => GoodMenuItem(m));
  }

  lemma GoodIsWellFormed(it: Item, m: MenuItem)
    requires GoodMenuItem(m) && m == MenuItem(Terminated(it.title), Strings(it.subs))
    ensures WellFormed(it)
  {
    TerminatedReads(it.title);
    forall i | 0 <= i < |it.subs|
      ensures GoodSub(it.subs[i])
    {
      assert m.submenuC[i] == Terminated(it.subs[i]);
      TerminatedReads(it.subs[i]);
    }
  }

  lemma AllGoodIsWellFormed(items: seq<Item>)
    requires forall i :: 0 <= i < |ToMenu(items)| ==> GoodMenuItem(ToMenu(items)[i])
    ensures forall i :: 0 <= i < |items| ==> WellFormed(items[i])
  {
    forall i | 0 <= i < |items|
      ensures WellFormed(items[i])
    {
      GoodIsWellFormed(items[i], ToMenu(items)[i]);
    }
  }

  /**
   The syntax can express exactly the well-formed items: a menu survives printing
   and parsing if and only if every item of it is well-formed.
   */
  lemma RoundTripIffWellFormed(items: seq<Item>)
    ensures ParseRaw(Print(items)) == ToMenu(items) <==> forall i :: 0 <= i < |items| ==> WellFormed(items[i])
  {
    if forall i :: 0 <= i < |items| ==> WellFormed(items[i]) {
      PrintedMenuParses(items, []);
    }
    if ParseRaw(Print(items)) == ToMenu(items) {
      ParsedItemsAreGood(Print(items));
      AllGoodIsWellFormed(items);
    }
  }

  // ---------------------------------------------------------------------
  // The registry
  // ---------------------------------------------------------------------

  datatype RegEntry = RegEntry(
    nameC: string, iconC: string, displayC: string, diamondColor: nat, pinned: bool, menuItems: seq<MenuItem>)

  const PINNED_DEFAULT := "ShiLooker"
  const SHELL := "ShiLauncher"
  const DEFAULT_DIAMOND_COLOR: nat := 0x33B9B9B9

  function MakeEntry(folder: string, iconRel: string, display: string, color: nat, pinned: bool,
                     menu: string, apps: seq<AppManifest>): RegEntry {
    RegEntry(Terminated(folder),
             if iconRel == "" then "" else Terminated("SDC:/apps/" + folder + "/" + iconRel),
             Terminated(if display == "" then folder else display),
             color, pinned, Parse(menu, apps))
  }

  /** The default application, always there and pinned, from its manifest if installed. */
  function DefaultEntry(apps: seq<AppManifest>): RegEntry {
    match FindApp(PINNED_DEFAULT, apps)
    case Some(a) =>
      MakeEntry(PINNED_DEFAULT, if a.iconRel == "" then "ShiLooker.slasset/ShiLooker.png" else a.iconRel,
                a.displayName, a.diamondColor, true, a.dockMenuItems, apps)
    case None =>
      MakeEntry(PINNED_DEFAULT, "ShiLooker.slasset/ShiLooker.png", "", DEFAULT_DIAMOND_COLOR, true, "", apps)
  }

  /** An installed application starts unpinned; the shell and the default are not listed here. */
  function EntryOf(a: AppManifest, apps: seq<AppManifest>): seq<RegEntry> {
    if a.folderName == SHELL || a.folderName == PINNED_DEFAULT then []
    else [MakeEntry(a.folderName, a.iconRel, a.displayName, a.diamondColor, false, a.dockMenuItems, apps)]
  }

  function OtherEntries(scanned: seq<AppManifest>, apps: seq<AppManifest>): seq<RegEntry> {
    if scanned == [] then []
    else OtherEntries(scanned[..|scanned| - 1], apps) + EntryOf(scanned[|scanned| - 1], apps)
  }

  lemma OtherEntriesStep(scanned: seq<AppManifest>, i: nat, apps: seq<AppManifest>)
    requires i < |scanned|
    ensures OtherEntries(scanned[..i + 1], apps) == OtherEntries(scanned[..i], apps) + EntryOf(scanned[i], apps)
  {
    assert scanned[..i + 1][..i] == scanned[..i];
  }

  /** The positions of the pinned entries, in order. */
  function PinnedPositions(entries: seq<RegEntry>): seq<nat> {
    if entries == [] then []
    else
      var n := |entries| - 1;
      PinnedPositions(entries[..n]) + (if entries[n].pinned then [n] else [])
  }

  class Registry {
    var entries: seq<RegEntry>

    constructor ()
      ensures entries == []
    {
      entries := [];
    }

    method PublishRegistry(apps: seq<AppManifest>)
      modifies this
      ensures entries == [DefaultEntry(apps)] + OtherEntries(apps, apps)
    {
      var v := [DefaultEntry(apps)];
      for i := 0 to |apps|
        invariant v == [DefaultEntry(apps)] + OtherEntries(apps[..i], apps)
      {
        OtherEntriesStep(apps, i, apps);
        var a := apps[i];
        if a.folderName == SHELL {
          continue;
        }
        if a.folderName == PINNED_DEFAULT {
          continue;
        }
        v := v + [MakeEntry(a.folderName, a.iconRel, a.displayName, a.diamondColor, false, a.dockMenuItems, apps)];
      }
      assert apps[..|apps|] == apps;
      entries := v;
    }

    method SetPinned(i: nat, pinned: bool) returns (r: int)
      modifies this
      ensures r == if i < |old(entries)| then 0 else -1
      ensures entries == if i < |old(entries)| then old(entries)[i := old(entries)[i].(pinned := pinned)]
                         else old(entries)
    {
      if i >= |entries| {
        return -1;
      }
      entries := entries[i := entries[i].(pinned := pinned)];
      return 0;
    }

    method PinnedCount() returns (n: nat)
      ensures n == |PinnedPositions(entries)|
    {
      n := 0;
      for i := 0 to |entries|
        invariant n == |PinnedPositions(entries[..i])|
      {
        assert entries[..i + 1][..i] == entries[..i];
        if entries[i].pinned {
          n := n + 1;
        }
      }
      assert entries[..|entries|] == entries;
    }

    /** The position of the i-th pinned entry, or -1 beyond the last. */
    method PinnedIndex(i: nat) returns (r: int)
      ensures r == if i < |PinnedPositions(entries)| then PinnedPositions(entries)[i] else -1
    {
      var count := 0;
      for idx := 0 to |entries|
        invariant count == |PinnedPositions(entries[..idx])| <= i
      {
        assert entries[..idx + 1][..idx] == entries[..idx];
        if entries[idx].pinned {
          if count == i {
            PositionsOfPrefix(entries, idx + 1);
            return idx;
          }
          count := count + 1;
        }
      }
      assert entries[..|entries|] == entries;
      return -1;
    }
  }

  lemma {:induction false} PositionsOfPrefix(entries: seq<RegEntry>, n: nat)
    requires n <= |entries|
    ensures PinnedPositions(entries[..n]) <= PinnedPositions(entries)
    decreases |entries| - n
  {
    if n == |entries| {
      assert entries[..n] == entries;
    } else {
      PositionsOfPrefix(entries, n + 1);
      assert entries[..n + 1][..n] == entries[..n];
    }
  }

  /** `p` lists in order exactly the pinned ones of the first `n` entries. */
  predicate ListsPinned(p: seq<nat>, entries: seq<RegEntry>, n: nat)
    requires n <= |entries|
  {
    && (forall i, j :: 0 <= i < j < |p| ==> p[i] < p[j])
    && (forall i :: 0 <= i < |p| ==> p[i] < n && entries[p[i]].pinned)
    && (forall k {:trigger k in p} :: 0 <= k < n && entries[k].pinned ==> k in p)
  }

  lemma ListsOneMore(p: seq<nat>, q: seq<nat>, entries: seq<RegEntry>, n: nat)
    requires n < |entries| && ListsPinned(p, entries, n)
    requires q == if entries[n].pinned then p + [n] else p
    ensures ListsPinned(q, entries, n + 1)
  {
    if entries[n].pinned {
      assert q[|p|] == n;
    }
  }

  lemma PositionsOfOneMore(entries: seq<RegEntry>, n: nat)
    requires n < |entries|
    ensures PinnedPositions(entries[..n + 1])
            == if entries[n].pinned then PinnedPositions(entries[..n]) + [n] else PinnedPositions(entries[..n])
  {
    assert entries[..n + 1][..n] == entries[..n];
  }

  lemma {:induction false} PrefixListsPinned(entries: seq<RegEntry>, n: nat)
    requires n <= |entries|
    ensures ListsPinned(PinnedPositions(entries[..n]), entries, n)
  {
    if n == 0 {
      assert PinnedPositions(entries[..n]) == [];
    } else {
      PrefixListsPinned(entries, n - 1);
      PositionsOfOneMore(entries, n - 1);
      ListsOneMore(PinnedPositions(entries[..n - 1]), PinnedPositions(entries[..n]), entries, n - 1);
    }
  }

  /** The positions ascend and are exactly those of the pinned entries. */
  lemma PositionsAreThePinned(entries: seq<RegEntry>)
    ensures var p := PinnedPositions(entries);
            && (forall i, j :: 0 <= i < j < |p| ==> p[i] < p[j])
            && (forall i :: 0 <= i < |p| ==> p[i] < |entries| && entries[p[i]].pinned)
            && (forall k :: 0 <= k < |entries| && entries[k].pinned ==> k in p)
  {
    PrefixListsPinned(entries, |entries|);
    assert entries[..|entries|] == entries;
  }

  lemma {:induction false} OnlyFirstPinned(entries: seq<RegEntry>)
    requires entries != [] && entries[0].pinned
    requires forall i :: 1 <= i < |entries| ==> !entries[i].pinned
    ensures PinnedPositions(entries) == [0]
  {
    if |entries| > 1 {
      OnlyFirstPinned(entries[..|entries| - 1]);
    } else {
      assert PinnedPositions(entries[..0]) == [];
    }
  }

  lemma {:induction false} OthersAreUnpinned(scanned: seq<AppManifest>, apps: seq<AppManifest>)
    ensures forall i :: 0 <= i < |OtherEntries(scanned, apps)| ==>
              var e := OtherEntries(scanned, apps)[i];
              !e.pinned && e.nameC != Terminated(SHELL) && e.nameC != Terminated(PINNED_DEFAULT)
  {
    if scanned != [] {
      OthersAreUnpinned(scanned[..|scanned| - 1], apps);
      var a := scanned[|scanned| - 1];
      if a.folderName != SHELL && a.folderName != PINNED_DEFAULT {
        TerminatedReads(a.folderName);
        TerminatedReads(SHELL);
        TerminatedReads(PINNED_DEFAULT);
      }
    }
  }

  /** The installed applications that the dock lists behind its default, in order. */
  function Shown(apps: seq<AppManifest>): seq<AppManifest> {
    if apps == [] then []
    else
      var a := apps[|apps| - 1];
      Shown(apps[..|apps| - 1])
      + (if a.folderName == "ShiLauncher" || a.folderName == "ShiLooker" then [] else [a])
  }

  /** The entry shows the application under these texts. */
  predicate Shows(e: RegEntry, folder: string, display: string, icon: string, color: nat, menu: seq<MenuItem>) {
    && e.nameC == folder + "\0" && e.displayC == (if display == "" then folder else display) + "\0"
    && e.iconC == (if icon == "" then "" else "SDC:/apps/" + folder + "/" + icon + "\0")
    && e.diamondColor == color && e.menuItems == menu
  }

  predicate ShowsApp(e: RegEntry, a: AppManifest, apps: seq<AppManifest>) {
    !e.pinned && Shows(e, a.folderName, a.displayName, a.iconRel, a.diamondColor, Parse(a.dockMenuItems, apps))
  }

  lemma {:induction false} OthersAreShown(scanned: seq<AppManifest>, apps: seq<AppManifest>)
    ensures |OtherEntries(scanned, apps)| == |Shown(scanned)|
    ensures forall i :: 0 <= i < |Shown(scanned)| ==> ShowsApp(OtherEntries(scanned, apps)[i], Shown(scanned)[i], apps)
  {
    if scanned != [] {
      var a := scanned[|scanned| - 1];
      OthersAreShown(scanned[..|scanned| - 1], apps);
      EntryShows(a, apps);
    }
  }

  lemma MadeEntryShows(folder: string, icon: string, display: string, color: nat, pinned: bool,
                       menu: string, apps: seq<AppManifest>)
    ensures var e := MakeEntry(folder, icon, display, color, pinned, menu, apps);
            e.pinned == pinned && Shows(e, folder, display, icon, color, Parse(menu, apps))
  {
    var path := "SDC:/apps/" + folder + "/" + icon;
    assert Terminated(path) == path + "\0";
  }

  lemma EntryShows(a: AppManifest, apps: seq<AppManifest>)
    ensures a.folderName == "ShiLauncher" || a.folderName == "ShiLooker" ==> EntryOf(a, apps) == []
    ensures a.folderName != "ShiLauncher" && a.folderName != "ShiLooker" ==>
              |EntryOf(a, apps)| == 1 && ShowsApp(EntryOf(a, apps)[0], a, apps)
  {
    MadeEntryShows(a.folderName, a.iconRel, a.displayName, a.diamondColor, false, a.dockMenuItems, apps);
  }

  /** The default application as its manifest has it, or as it is without one. */
  predicate ShowsDefault(e: RegEntry, manifest: Option<AppManifest>, apps: seq<AppManifest>) {
    match manifest
    case Some(a) =>
      Shows(e, "ShiLooker", a.displayName, if a.iconRel == "" then "ShiLooker.slasset/ShiLooker.png" else a.iconRel,
            a.diamondColor, Parse(a.dockMenuItems, apps))
    case None => Shows(e, "ShiLooker", "", "ShiLooker.slasset/ShiLooker.png", 0x33B9B9B9, [])
  }

  lemma DefaultShows(apps: seq<AppManifest>)
    ensures DefaultEntry(apps).pinned && ShowsDefault(DefaultEntry(apps), FindApp("ShiLooker", apps), apps)
  {
    match FindApp("ShiLooker", apps)
    case Some(a) =>
      MadeEntryShows("ShiLooker", if a.iconRel == "" then "ShiLooker.slasset/ShiLooker.png" else a.iconRel,
                     a.displayName, a.diamondColor, true, a.dockMenuItems, apps);
    case None =>
      MadeEntryShows("ShiLooker", "ShiLooker.slasset/ShiLooker.png", "", 0x33B9B9B9, true, "", apps);
      EmptyMenu(apps);
  }

  /**
   What a published registry lists: first the default application, pinned, with
   the texts of its manifest if it is installed and its own icon otherwise; then
   every installed one but the shell and the default, in order and unpinned, each
   with its name, display name or else name, icon path, colour and menu.
   */
  lemma PublishedShowsTheInstalled(apps: seq<AppManifest>)
    ensures var first, others := DefaultEntry(apps), OtherEntries(apps, apps);
            && first.pinned
            && (forall k: nat :: FirstCalled(apps, "ShiLooker", k) ==> ShowsDefault(first, Some(apps[k]), apps))
            && ((forall k :: 0 <= k < |apps| ==> apps[k].folderName != "ShiLooker") ==>
                  ShowsDefault(first, None, apps))
            && |others| == |Shown(apps)|
            && (forall i :: 0 <= i < |Shown(apps)| ==> ShowsApp(others[i], Shown(apps)[i], apps))
  {
    OthersAreShown(apps, apps);
    DefaultShows(apps);
    FindsFirstCalled("ShiLooker", apps);
    forall k: nat | FirstCalled(apps, "ShiLooker", k)
      ensures ShowsDefault(DefaultEntry(apps), Some(apps[k]), apps)
    {
      FoundIsFirst("ShiLooker", apps, k);
    }
  }

  lemma EmptyMenu(apps: seq<AppManifest>)
    ensures Parse("", apps) == []
  {
    FlatMapSingle(PartWith(apps), "");
  }

  /**
   Whatever is installed, a published registry starts with the default
   application, lists it once, has no entry for the shell, and pins exactly the
   first entry.
   */
  lemma PublishedPinsTheDefault(apps: seq<AppManifest>)
    ensures var entries := [DefaultEntry(apps)] + OtherEntries(apps, apps);
            && PinnedPositions(entries) == [0]
            && entries[0].nameC == Terminated(PINNED_DEFAULT)
            && forall i :: 1 <= i < |entries| ==>
                 entries[i].nameC != Terminated(PINNED_DEFAULT) && entries[i].nameC != Terminated(SHELL)
  {
    OthersAreUnpinned(apps, apps);
    var entries := [DefaultEntry(apps)] + OtherEntries(apps, apps);
    OnlyFirstPinned(entries);
  }
}
