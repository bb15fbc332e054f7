/**
  The TARGET_WALLETS setting: printed by the dashboard as "addr" or "addr:ratio" items joined by
  commas, parsed back at start-up.
 */
module WalletList {
  import opened Options

  datatype Parsed = Ok(wallets: seq<string>, ratios: map<string, real>) | InvalidKey

  /** Number formatting and parsing, and the public-key constructor's acceptance test. */
  datatype Env = Env(format: real -> string, parseFloat: string -> Option<real>, isPublicKey: string -> bool)

  // ---------- string primitives ----------

  predicate IsSpace(c: char) {
    c in " \t\n\r" || c as int in {0x0b, 0x0c, 0xa0, 0x1680, 0x2028, 0x2029, 0x202f, 0x205f, 0x3000, 0xfeff}
    || 0x2000 <= c as int <= 0x200a
  }

  function TrimStart(s: string): string {
    if s != "" && IsSpace(s[0]) then TrimStart(s[1..]) else s
  }

  function TrimEnd(s: string): string {
    if s != "" && IsSpace(s[|s| - 1]) then TrimEnd(s[..|s| - 1]) else s
  }

  function Trim(s: string): string {
    TrimEnd(TrimStart(s))
  }

  function Split(s: string, sep: char): (r: seq<string>)
    ensures |r| >= 1
  {
    if s == "" then [""]
    else
      var rest := Split(s[1..], sep);
      if s[0] == sep then [""] + rest else [[s[0]] + rest[0]] + rest[1..]
  }

  function Join(pieces: seq<string>, sep: char): string {
    if pieces == [] then ""
    else if |pieces| == 1 then pieces[0]
    else pieces[0] + [sep] + Join(pieces[1..], sep)
  }

  function LastIndexOf(s: string, c: char): (i: int)
    ensures -1 <= i < |s|
    decreases |s|
  {
    if s == "" then -1 else if s[|s| - 1] == c then |s| - 1 else LastIndexOf(s[..|s| - 1], c)
  }

  predicate IsBase58Char(c: char) {
    ('1' <= c <= '9' || 'A' <= c <= 'Z' || 'a' <= c <= 'z') && c !in "OIl"
  }

  predicate IsBase58(s: string) {
    s != "" && forall i :: 0 <= i < |s| ==> IsBase58Char(s[i])
  }

  /** Non-empty text without commas, colons or white space. */
  predicate IsPlain(s: string) {
    s != "" && forall i :: 0 <= i < |s| ==> s[i] != ',' && s[i] != ':' && !IsSpace(s[i])
  }

  // ---------- printing ----------

  function PrintOne(env: Env, addr: string, ratios: map<string, real>): string {
    if addr in ratios then addr + ":" + env.format(ratios[addr]) else addr
  }

  function PrintItems(env: Env, wallets: seq<string>, ratios: map<string, real>): (items: seq<string>)
    ensures |items| == |wallets| && forall i :: 0 <= i < |items| ==> items[i] == PrintOne(env, wallets[i], ratios)
    decreases |wallets|
  {
    if wallets == [] then []
    else PrintItems(env, wallets[..|wallets| - 1], ratios) + [PrintOne(env, wallets[|wallets| - 1], ratios)]
  }

  function Print(env: Env, wallets: seq<string>, ratios: map<string, real>): string {
    Join(PrintItems(env, wallets, ratios), ',')
  }

  // ---------- parsing ----------

  /** Address and ratio text of one item, as cut at its last colon. */
  function Cut(s: string): (string, Option<string>) {
    var colonIdx := LastIndexOf(s, ':');
    if colonIdx > 0 then (Trim(s[..colonIdx]), Some(Trim(s[colonIdx + 1..]))) else (s, None)
  }

  function AddItem(env: Env, so: Parsed, s: string): Parsed {
    if so.InvalidKey? then so
    else
      var (addr, text) := Cut(s);
      var ratio := if text.Some? then env.parseFloat(text.value) else None;
      if !env.isPublicKey(addr) then InvalidKey
      else Ok(so.wallets + [addr], if ratio.Some? && ratio.value > 0.0 then so.ratios[addr := ratio.value] else so.ratios)
  }

  function AddItems(env: Env, items: seq<string>): Parsed
    decreases |items|
  {
    if items == [] then Ok([], map[])
    else AddItem(env, AddItems(env, items[..|items| - 1]), items[|items| - 1])
  }

  function NonEmptyTrimmed(pieces: seq<string>): seq<string>
    decreases |pieces|
  {
    if pieces == [] then []
    else
      var init, last := NonEmptyTrimmed(pieces[..|pieces| - 1]), Trim(pieces[|pieces| - 1]);
      if last == "" then init else init + [last]
  }

  function Parse(env: Env, raw: string): Parsed {
    AddItems(env, NonEmptyTrimmed(Split(raw, ',')))
  }

  method SplitItems(raw: string) returns (items: seq<string>)
    ensures items == NonEmptyTrimmed(Split(raw, ','))
  {
    items := [];
    var pieces := Split(raw, ',');
    for i := 0 to |pieces|
      invariant items == NonEmptyTrimmed(pieces[..i])
    {
      assert pieces[..i + 1][..i] == pieces[..i];
      var trimmed := Trim(pieces[i]);
      if |trimmed| > 0 { items := items + [trimmed]; }
    }
    assert pieces[..|pieces|] == pieces;
  }

  /** One item: record its ratio if that is positive, then construct the key. */
  method ParseItem(env: Env, so: Parsed, item: string) returns (r: Parsed)
    requires so.Ok?
    ensures r == AddItem(env, so, item)
  {
    var colonIdx := LastIndexOf(item, ':');
    var addr, ratios := item, so.ratios;
    if colonIdx > 0 {
      addr := Trim(item[..colonIdx]);
      var ratio := env.parseFloat(Trim(item[colonIdx + 1..]));
      if ratio.Some? && ratio.value > 0.0 { ratios := ratios[addr := ratio.value]; }
    }
    return if env.isPublicKey(addr) then Ok(so.wallets + [addr], ratios) else InvalidKey;
  }

  /** The parsing pipeline, with its map of ratios written on the way. */
  method ParseTargetWallets(env: Env, raw: string) returns (r: Parsed)
    ensures r == Parse(env, raw)
  {
    var items := SplitItems(raw);
    r := Ok([], map[]);
    for i := 0 to |items|
      invariant r.Ok? && AddItems(env, items[..i]) == r
    {
      assert items[..i + 1][..i] == items[..i] && items[..i + 1][i] == items[i];
      r := ParseItem(env, r, items[i]);
      if r.InvalidKey? {
        InvalidStays(env, items, i + 1);
        return;
      }
    }
    assert items[..|items|] == items;
  }

  /** A bad key anywhere fails the whole list. */
  lemma {:induction false} InvalidStays(env: Env, items: seq<string>, i: nat)
    requires i <= |items| && AddItems(env, items[..i]).InvalidKey?
    ensures AddItems(env, items).InvalidKey?
    decreases |items|
  {
    if i == |items| {
      assert items[..i] == items;
    } else {
      var init := items[..|items| - 1];
      assert init[..i] == items[..i];
      InvalidStays(env, init, i);
    }
  }

  // ---------- the primitives on plain text ----------

  lemma TrimPlain(s: string)
    requires s == "" || (!IsSpace(s[0]) && !IsSpace(s[|s| - 1]))
    ensures Trim(s) == s
  {
  }

  lemma {:induction false} SplitFront(piece: string, rest: string, sep: char)
    requires sep !in piece
    ensures Split(piece + [sep] + rest, sep) == [piece] + Split(rest, sep)
    ensures Split(piece, sep) == [piece]
    decreases |piece|
  {
    var s := piece + [sep] + rest;
    if piece == "" {
      assert s[1..] == rest;
    } else {
      SplitFront(piece[1..], rest, sep);
      assert s[1..] == piece[1..] + [sep] + rest;
      assert [piece[0]] + piece[1..] == piece;
    }
  }

  /** Splitting a joined list gives the list back. */
  lemma {:induction false} SplitJoin(pieces: seq<string>, sep: char)
    requires pieces != [] && forall i :: 0 <= i < |pieces| ==> sep !in pieces[i]
    ensures Split(Join(pieces, sep), sep) == pieces
    decreases |pieces|
  {
    if |pieces| == 1 {
      SplitFront(pieces[0], "", sep);
    } else {
      SplitJoin(pieces[1..], sep);
      SplitFront(pieces[0], Join(pieces[1..], sep), sep);
    }
  }

  lemma {:induction false} LastIndexAfter(a: string, c: char, b: string)
    requires c !in b
    ensures LastIndexOf(a + [c] + b, c) == |a|
    decreases |b|
  {
    var s := a + [c] + b;
    if b != "" {
      assert s[|s| - 1] == b[|b| - 1] && s[..|s| - 1] == a + [c] + b[..|b| - 1];
      LastIndexAfter(a, c, b[..|b| - 1]);
    }
  }

  lemma {:induction false} NoIndex(s: string, c: char)
    requires c !in s
    ensures LastIndexOf(s, c) == -1
    decreases |s|
  {
    if s != "" { NoIndex(s[..|s| - 1], c); }
  }

  lemma Base58IsPlain(s: string)
    requires IsBase58(s)
    ensures IsPlain(s)
  {
    forall i | 0 <= i < |s| ensures s[i] != ',' && s[i] != ':' && !IsSpace(s[i]) {
      assert IsBase58Char(s[i]);
    }
  }

  // ---------- the round trip ----------

  /** The number survives printing and parsing, and its text cannot be mistaken for a delimiter. */
  predicate Printable(env: Env, r: real) {
    IsPlain(env.format(r)) && env.parseFloat(env.format(r)) == Some(r)
  }

  ghost predicate Wellformed(env: Env, wallets: seq<string>, ratios: map<string, real>) {
    && (forall i :: 0 <= i < |wallets| ==> IsBase58(wallets[i]) && env.isPublicKey(wallets[i]))
    && (forall i :: 0 <= i < |wallets| && wallets[i] in ratios ==> Printable(env, ratios[wallets[i]]))
  }

  /** An item is trimmed, has no comma, and cuts into its address and the text of its ratio. */
  lemma ItemRoundTrip(env: Env, addr: string, ratios: map<string, real>)
    requires IsBase58(addr) && (addr in ratios ==> Printable(env, ratios[addr]))
    ensures var item := PrintOne(env, addr, ratios);
      && item != "" && Trim(item) == item && ',' !in item
      && Cut(item) == (addr, if addr in ratios then Some(env.format(ratios[addr])) else None)
  {
    Base58IsPlain(addr);
    TrimPlain(addr);
    if addr in ratios {
      var text := env.format(ratios[addr]);
      var item := addr + ":" + text;
      assert item[0] == addr[0] && item[|item| - 1] == text[|text| - 1];
      TrimPlain(item);
      TrimPlain(text);
      LastIndexAfter(addr, ':', text);
      assert item[..|addr|] == addr && item[|addr| + 1..] == text;
    } else {
      NoIndex(addr, ':');
    }
  }

  /** The ratios that survive: those of listed wallets, and only positive ones. */
  function Kept(wallets: seq<string>, ratios: map<string, real>): map<string, real> {
    map a | a in wallets && a in ratios && ratios[a] > 0.0 :: ratios[a]
  }

  lemma KeptLast(ws: seq<string>, last: string, ratios: map<string, real>)
    ensures Kept(ws + [last], ratios) ==
      if last in ratios && ratios[last] > 0.0 then Kept(ws, ratios)[last := ratios[last]] else Kept(ws, ratios)
  {
  }

  lemma AddPrinted(env: Env, ws: seq<string>, last: string, ratios: map<string, real>)
    requires IsBase58(last) && env.isPublicKey(last) && (last in ratios ==> Printable(env, ratios[last]))
    ensures AddItem(env, Ok(ws, Kept(ws, ratios)), PrintOne(env, last, ratios)) == Ok(ws + [last], Kept(ws + [last], ratios))
  {
    ItemRoundTrip(env, last, ratios);
    KeptLast(ws, last, ratios);
  }

  lemma {:induction false} AlreadyTrimmed(items: seq<string>)
    requires forall i :: 0 <= i < |items| ==> items[i] != "" && Trim(items[i]) == items[i]
    ensures NonEmptyTrimmed(items) == items
    decreases |items|
  {
    if items != [] {
      AlreadyTrimmed(items[..|items| - 1]);
      assert items == items[..|items| - 1] + [items[|items| - 1]];
    }
  }

  lemma {:induction false} ItemsRoundTrip(env: Env, wallets: seq<string>, ratios: map<string, real>)
    requires Wellformed(env, wallets, ratios)
    ensures AddItems(env, PrintItems(env, wallets, ratios)) == Ok(wallets, Kept(wallets, ratios))
    decreases |wallets|
  {
    if wallets == [] {
      assert Kept(wallets, ratios) == map[];
    } else {
      var ws, last := wallets[..|wallets| - 1], wallets[|wallets| - 1];
      var before, item := PrintItems(env, ws, ratios), PrintOne(env, last, ratios);
      assert (before + [item])[..|before|] == before && (before + [item])[|before|] == item;
      calc {
        AddItems(env, PrintItems(env, wallets, ratios));
        AddItems(env, before + [item]);
        AddItem(env, AddItems(env, before), item);
        { ItemsRoundTrip(env, ws, ratios); }
        AddItem(env, Ok(ws, Kept(ws, ratios)), item);
        { AddPrinted(env, ws, last, ratios); }
        Ok(ws + [last], Kept(ws + [last], ratios));
        { assert ws + [last] == wallets; }
        Ok(wallets, Kept(wallets, ratios));
      }
    }
  }

  /** Printing and parsing returns the wallets in order and exactly the positive ratios of the
      listed wallets. */
  lemma PrintParseRoundTrip(env: Env, wallets: seq<string>, ratios: map<string, real>)
    requires Wellformed(env, wallets, ratios)
    ensures Parse(env, Print(env, wallets, ratios)) == Ok(wallets, Kept(wallets, ratios))
  {
    var items := PrintItems(env, wallets, ratios);
    ItemsRoundTrip(env, wallets, ratios);
    if wallets == [] {
      assert items == [] && Split("", ',') == [""];
      assert [""][..0] == [] && Trim("") == "";
      assert NonEmptyTrimmed([""]) == [];
      assert Kept(wallets, ratios) == map[];
    } else {
      forall i | 0 <= i < |items| ensures ',' !in items[i] && items[i] != "" && Trim(items[i]) == items[i] {
        ItemRoundTrip(env, wallets[i], ratios);
      }
      AlreadyTrimmed(items);
      SplitJoin(items, ',');
    }
  }

  lemma {:induction false} ParsedIsWellformed(env: Env, items: seq<string>)
    requires AddItems(env, items).Ok?
    ensures var r := AddItems(env, items);
      && (forall a :: a in r.ratios ==> a in r.wallets && r.ratios[a] > 0.0)
      && (forall i :: 0 <= i < |r.wallets| ==> env.isPublicKey(r.wallets[i]))
    decreases |items|
  {
    if items != [] { ParsedIsWellformed(env, items[..|items| - 1]); }
  }

  /** Any setting the bot accepts is unchanged by the dashboard printing it back. */
  lemma ReprintedSettingIsStable(env: Env, raw: string)
    requires Parse(env, raw).Ok?
    requires forall s :: env.isPublicKey(s) ==> IsBase58(s)
    requires forall a :: a in Parse(env, raw).ratios ==> Printable(env, Parse(env, raw).ratios[a])
    ensures var r := Parse(env, raw); Parse(env, Print(env, r.wallets, r.ratios)) == r
  {
    var r := Parse(env, raw);
    ParsedIsWellformed(env, NonEmptyTrimmed(Split(raw, ',')));
    PrintParseRoundTrip(env, r.wallets, r.ratios);
    assert Kept(r.wallets, r.ratios) == r.ratios;
  }

  // ---------- settings as people write them ----------

  predicate IsBlank(s: string) {
    forall i :: 0 <= i < |s| ==> IsSpace(s[i])
  }

  /** What may stand between two commas: nothing, an address, or an address and a ratio, with white
      space anywhere around them. */
  datatype Piece =
    | Blank(pad: string)
    | Plain(left: string, addr: string, right: string)
    | Rated(left: string, addr: string, beforeColon: string, afterColon: string, text: string, right: string)

  function Text(p: Piece): string {
    match p
    case Blank(pad) => pad
    case Plain(left, addr, right) => left + addr + right
    case Rated(left, addr, beforeColon, afterColon, text, right) =>
      left + (addr + beforeColon + ":" + afterColon + text) + right
  }

  predicate WellWritten(p: Piece) {
    match p
    case Blank(pad) => IsBlank(pad)
    case Plain(left, addr, right) => IsBlank(left) && IsPlain(addr) && IsBlank(right)
    case Rated(left, addr, beforeColon, afterColon, text, right) =>
      && IsBlank(left) && IsBlank(beforeColon) && IsBlank(afterColon) && IsBlank(right)
      && IsPlain(addr) && IsPlain(text)
  }

  function Texts(pieces: seq<Piece>): (r: seq<string>)
    ensures |r| == |pieces| && forall i :: 0 <= i < |r| ==> r[i] == Text(pieces[i])
    decreases |pieces|
  {
    if pieces == [] then [] else Texts(pieces[..|pieces| - 1]) + [Text(pieces[|pieces| - 1])]
  }

  /** The addresses, in order; blanks do not count. */
  function Addresses(pieces: seq<Piece>): seq<string>
    decreases |pieces|
  {
    if pieces == [] then []
    else
      var last := pieces[|pieces| - 1];
      if last.Blank? then Addresses(pieces[..|pieces| - 1]) else Addresses(pieces[..|pieces| - 1]) + [last.addr]
  }

  /** The piece gives address `a` a positive ratio. */
  ghost predicate Rates(env: Env, p: Piece, a: string) {
    p.Rated? && p.addr == a && env.parseFloat(p.text).Some? && env.parseFloat(p.text).value > 0.0
  }

  /** Piece `i` does, and no later one. */
  ghost predicate LastRates(env: Env, pieces: seq<Piece>, a: string, i: int) {
    && 0 <= i < |pieces| && Rates(env, pieces[i], a)
    && forall j :: i < j < |pieces| ==> !Rates(env, pieces[j], a)
  }

  /** The ratios are those given last, and positive, for their address. */
  ghost predicate RatiosAreLast(env: Env, pieces: seq<Piece>, ratios: map<string, real>) {
    && (forall a :: a in ratios ==> exists i :: LastRates(env, pieces, a, i))
    && (forall a, i :: LastRates(env, pieces, a, i) ==>
          a in ratios && ratios[a] == env.parseFloat(pieces[i].text).value)
  }

  lemma {:induction false} TrimStartSkips(pad: string, s: string)
    requires IsBlank(pad) && (s == "" || !IsSpace(s[0]))
    ensures TrimStart(pad + s) == s
    decreases |pad|
  {
    if pad == "" {
      assert pad + s == s;
    } else {
      assert (pad + s)[1..] == pad[1..] + s;
      TrimStartSkips(pad[1..], s);
    }
  }

  lemma {:induction false} TrimEndSkips(s: string, pad: string)
    requires IsBlank(pad) && (s == "" || !IsSpace(s[|s| - 1]))
    ensures TrimEnd(s + pad) == s
    decreases |pad|
  {
    if pad == "" {
      assert s + pad == s;
    } else {
      assert (s + pad)[..|s + pad| - 1] == s + pad[..|pad| - 1];
      TrimEndSkips(s, pad[..|pad| - 1]);
    }
  }

  /** White space around a text is dropped, and nothing else. */
  lemma TrimPadded(left: string, s: string, right: string)
    requires IsBlank(left) && IsBlank(right)
    requires s != "" ==> !IsSpace(s[0]) && !IsSpace(s[|s| - 1])
    ensures Trim(left + s + right) == s
  {
    if s == "" {
      var pad := left + right;
      assert left + s + right == pad + "";
      TrimStartSkips(pad, "");
      TrimEndSkips("", "");
    } else {
      assert left + s + right == left + (s + right);
      TrimStartSkips(left, s + right);
      TrimEndSkips(s, right);
    }
  }

  /** The text of a piece without the white space around it. */
  function Core(p: Piece): string {
    match p
    case Blank(_) => ""
    case Plain(_, addr, _) => addr
    case Rated(_, addr, beforeColon, afterColon, text, _) => addr + beforeColon + ":" + afterColon + text
  }

  lemma PieceTrims(p: Piece)
    requires WellWritten(p)
    ensures Trim(Text(p)) == Core(p) && ',' !in Text(p)
    ensures p.Blank? <==> Core(p) == ""
  {
    var core := Core(p);
    match p {
      case Blank(pad) =>
        assert pad == pad + "" + "";
        TrimPadded(pad, "", "");
      case Plain(left, addr, right) => TrimPadded(left, addr, right);
      case Rated(left, addr, beforeColon, afterColon, text, right) =>
        assert core[0] == addr[0] && core[|core| - 1] == text[|text| - 1];
        TrimPadded(left, core, right);
        assert ',' !in core;
    }
  }

  lemma RatedCuts(addr: string, beforeColon: string, afterColon: string, text: string)
    requires IsBlank(beforeColon) && IsBlank(afterColon) && IsPlain(addr) && IsPlain(text)
    ensures Cut((addr + beforeColon) + ":" + (afterColon + text)) == (addr, Some(text))
  {
    var head, tail := addr + beforeColon, afterColon + text;
    var item := head + ":" + tail;
    forall i | 0 <= i < |tail| ensures tail[i] != ':' {
      assert tail[i] == if i < |afterColon| then afterColon[i] else text[i - |afterColon|];
    }
    LastIndexAfter(head, ':', tail);
    assert item[..|head|] == head && item[|head| + 1..] == tail;
    assert Trim(head) == addr by {
      assert "" + addr + beforeColon == head;
      TrimPadded("", addr, beforeColon);
    }
    assert Trim(tail) == text by {
      assert afterColon + text + "" == tail;
      TrimPadded(afterColon, text, "");
    }
  }

  /** An item cuts into its address and ratio text, without the white space around the colon. */
  lemma PieceCuts(p: Piece)
    requires WellWritten(p) && !p.Blank?
    ensures Cut(Core(p)) == (p.addr, if p.Rated? then Some(p.text) else None)
  {
    match p {
      case Plain(_, addr, _) => NoIndex(addr, ':');
      case Rated(_, addr, beforeColon, afterColon, text, _) =>
        assert Core(p) == (addr + beforeColon) + ":" + (afterColon + text);
        RatedCuts(addr, beforeColon, afterColon, text);
    }
  }

  lemma LastRatesAppend(env: Env, pieces: seq<Piece>, last: Piece, ratios: map<string, real>)
    requires RatiosAreLast(env, pieces, ratios)
    ensures RatiosAreLast(env, pieces + [last],
      if last.Rated? && Rates(env, last, last.addr) then ratios[last.addr := env.parseFloat(last.text).value] else ratios)
  {
    var longer, n := pieces + [last], |pieces|;
    assert forall i :: 0 <= i < n ==> longer[i] == pieces[i];
    forall a, i | i < n && LastRates(env, longer, a, i) ensures LastRates(env, pieces, a, i) && !Rates(env, last, a) {
      assert longer[n] == last;
    }
    forall a, i | LastRates(env, pieces, a, i) && !Rates(env, last, a) ensures LastRates(env, longer, a, i) {}
    if last.Rated? && Rates(env, last, last.addr) { assert LastRates(env, longer, last.addr, n); }
  }

  ghost predicate AllPublicKeys(env: Env, addresses: seq<string>) {
    forall i :: 0 <= i < |addresses| ==> env.isPublicKey(addresses[i])
  }

  /** `r` is what the pieces say: the addresses in order and the last positive ratio of each, or an error
      if some address is no key. */
  ghost predicate Says(env: Env, pieces: seq<Piece>, r: Parsed) {
    if AllPublicKeys(env, Addresses(pieces))
    then r.Ok? && r.wallets == Addresses(pieces) && RatiosAreLast(env, pieces, r.ratios)
    else r.InvalidKey?
  }

  lemma SaysNext(env: Env, init: seq<Piece>, last: Piece, r: Parsed)
    requires Says(env, init, r) && WellWritten(last)
    ensures Says(env, init + [last], if last.Blank? then r else AddItem(env, r, Core(last)))
  {
    var pieces := init + [last];
    assert pieces[..|init|] == init && pieces[|init|] == last;
    if r.Ok? { LastRatesAppend(env, init, last, r.ratios); }
    if !last.Blank? {
      PieceCuts(last);
      AllPublicKeysAppend(env, Addresses(init), last.addr);
    }
  }

  lemma AllPublicKeysAppend(env: Env, addresses: seq<string>, last: string)
    ensures AllPublicKeys(env, addresses + [last]) <==> AllPublicKeys(env, addresses) && env.isPublicKey(last)
  {
    var longer := addresses + [last];
    assert longer[|addresses|] == last && forall i :: 0 <= i < |addresses| ==> longer[i] == addresses[i];
  }

  lemma {:induction false} PiecesParse(env: Env, pieces: seq<Piece>)
    requires forall i :: 0 <= i < |pieces| ==> WellWritten(pieces[i])
    ensures Says(env, pieces, AddItems(env, NonEmptyTrimmed(Texts(pieces))))
    decreases |pieces|
  {
    if pieces != [] {
      var init, last := pieces[..|pieces| - 1], pieces[|pieces| - 1];
      PiecesParse(env, init);
      PieceTrims(last);
      var items := NonEmptyTrimmed(Texts(init));
      assert Texts(pieces)[..|init|] == Texts(init);
      assert (items + [Core(last)])[..|items|] == items;
      SaysNext(env, init, last, AddItems(env, items));
      assert pieces == init + [last];
    }
  }

  /** What a written setting means: the addresses in order, whatever white space and empty items stand
      between them, with the last positive ratio given to each; or an error if one is no key. */
  lemma WrittenSettingParses(env: Env, pieces: seq<Piece>)
    requires forall i :: 0 <= i < |pieces| ==> WellWritten(pieces[i])
    ensures Says(env, pieces, Parse(env, Join(Texts(pieces), ',')))
  {
    PiecesParse(env, pieces);
    if pieces == [] {
      assert [""][..0] == [] && Trim("") == "";
      assert NonEmptyTrimmed([""]) == [];
    } else {
      forall i | 0 <= i < |pieces| ensures ',' !in Texts(pieces)[i] { PieceTrims(pieces[i]); }
      SplitJoin(Texts(pieces), ',');
    }
  }

  function AsPiece(env: Env, addr: string, ratios: map<string, real>): Piece {
    if addr in ratios then Rated("", addr, "", "", env.format(ratios[addr]), "") else Plain("", addr, "")
  }

  lemma PrintedAsPiece(env: Env, addr: string, ratios: map<string, real>)
    ensures PrintOne(env, addr, ratios) == Text(AsPiece(env, addr, ratios))
  {
    if addr in ratios {
      var text := env.format(ratios[addr]);
      calc {
        Text(AsPiece(env, addr, ratios));
        "" + (addr + "" + ":" + "" + text) + "";
        addr + ":" + text;
      }
    }
  }

  /** What the dashboard writes: bare addresses, and "address:ratio" where there is a ratio. */
  lemma PrintedAsPieces(env: Env, wallets: seq<string>, ratios: map<string, real>, pieces: seq<Piece>)
    requires |pieces| == |wallets| && forall i :: 0 <= i < |wallets| ==> pieces[i] == AsPiece(env, wallets[i], ratios)
    ensures Print(env, wallets, ratios) == Join(Texts(pieces), ',')
  {
    forall i | 0 <= i < |wallets| ensures PrintItems(env, wallets, ratios)[i] == Texts(pieces)[i] {
      PrintedAsPiece(env, wallets[i], ratios);
    }
    assert PrintItems(env, wallets, ratios) == Texts(pieces);
  }

  /** A colon in front separates nothing: the item is taken as an address, colon and all. */
  lemma LeadingColonIsNoRatio(text: string)
    requires ':' !in text
    ensures Cut(":" + text) == (":" + text, None)
  {
    assert "" + ":" + text == ":" + text;
    LastIndexAfter("", ':', text);
  }
}
