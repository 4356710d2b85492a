/** The lines of a resource spec: four header values, which are text here, and one
    line of shares per slot.  Amounts are of any type with a printed form, which may
    depend on the type of the slot. */
module ResourceText {
  import opened Options
  import opened Strings

  // device name -> slot name -> device ID -> amount
  type Nested<A> = map<string, map<string, map<string, A>>>

  // The nested mapping, entry by entry in the order of its iteration.
  datatype Row<A> = Row(device: string, slot: string, shares: seq<(string, A)>)

  // The values of the first four lines, as text.
  datatype Header = Header(cid: string, scratchSize: string, mounts: string, slots: string)

  datatype Spec<A> = Spec(header: Header, allocations: Nested<A>)

  // An amount of an unknown slot type is skipped, a malformed one is an error.
  datatype Reading<A> = Amount(value: A) | UnknownType | Malformed

  // The text form of the amounts of a slot, and back.
  type Show<!A> = (string, A) -> string

  type Read<!A> = (string, string) -> Reading<A>

  function ShareMap<A>(shares: seq<(string, A)>): map<string, A> {
    if shares == [] then map[]
    else ShareMap(shares[..|shares| - 1])[shares[|shares| - 1].0 := shares[|shares| - 1].1]
  }

  function Put<A>(nested: Nested<A>, device: string, slot: string, shares: map<string, A>): Nested<A> {
    nested[device := (if device in nested then nested[device] else map[])[slot := shares]]
  }

  function Nest<A>(rows: seq<Row<A>>): Nested<A> {
    if rows == [] then map[]
    else
      var row := rows[|rows| - 1];
      Put(Nest(rows[..|rows| - 1]), row.device, row.slot, ShareMap(row.shares))
  }

  // ------------------------------------------------------------------- printing

  function Piece<A>(slot: string, share: (string, A), show: Show<A>): string { share.0 + ":" + show(slot, share.1) }

  function Pieces<A>(slot: string, shares: seq<(string, A)>, show: Show<A>): seq<string> {
    seq(|shares|, i requires 0 <= i < |shares| => Piece(slot, shares[i], show))
  }

  function ShareLine<A>(row: Row<A>, show: Show<A>): string {
    Upper(row.slot) + "_SHARES=" + Join(Pieces(row.slot, row.shares, show), ',')
  }

  function ShareLines<A>(rows: seq<Row<A>>, show: Show<A>): seq<string> {
    seq(|rows|, i requires 0 <= i < |rows| => ShareLine(rows[i], show))
  }

  function HeaderLines(h: Header): seq<string> {
    ["CID=" + h.cid, "SCRATCH_SIZE=" + h.scratchSize, "MOUNTS=" + h.mounts, "SLOTS=" + h.slots]
  }

  function Terminated(lines: seq<string>): string {
    if lines == [] then "" else Terminated(lines[..|lines| - 1]) + lines[|lines| - 1] + "\n"
  }

  predicate Prefixed<A>(row: Row<A>) {
    StartsWith(row.slot, row.device + ".") || row.slot == row.device
  }

  method PrintShares<A>(slot: string, shares: seq<(string, A)>, show: Show<A>) returns (pieces: seq<string>)
    ensures pieces == Pieces(slot, shares, show)
  {
    pieces := [];
    for j := 0 to |shares|
      invariant pieces == Pieces(slot, shares[..j], show)
    {
      assert shares[..j + 1] == shares[..j] + [shares[j]];
      pieces := pieces + [shares[j].0 + ":" + show(slot, shares[j].1)];
    }
    assert shares[..|shares|] == shares;
  }

  // A slot name that does not start with its device name is an error.
  method WriteLines<A>(h: Header, rows: seq<Row<A>>, show: Show<A>) returns (text: Option<string>)
    ensures text == if forall row :: row in rows ==> Prefixed(row)
      then Some(Terminated(HeaderLines(h) + ShareLines(rows, show))) else None
  {
    hide Terminated, HeaderLines, ShareLines, Join, Upper, Prefixed, Pieces;
    var resource := "CID=" + h.cid + "\n";
    resource := resource + "SCRATCH_SIZE=" + h.scratchSize + "\n";
    resource := resource + "MOUNTS=" + h.mounts + "\n";
    resource := resource + "SLOTS=" + h.slots + "\n";
    HeaderText(h, rows, show);
    for i := 0 to |rows|
      invariant forall k :: 0 <= k < i ==> Prefixed(rows[k])
      invariant resource == Terminated(HeaderLines(h) + ShareLines(rows[..i], show))
    {
      var row := rows[i];
      if !Prefixed(row) {
        return None;
      }
      var pieces := PrintShares(row.slot, row.shares, show);
      NextLine(h, rows, i, show);
      resource := resource + (Upper(row.slot) + "_SHARES=" + Join(pieces, ',')) + "\n";
    }
    assert rows[..|rows|] == rows;
    return Some(resource);
  }

  lemma HeaderText<A>(h: Header, rows: seq<Row<A>>, show: Show<A>)
    ensures Terminated(HeaderLines(h) + ShareLines(rows[..0], show)) ==
      "CID=" + h.cid + "\n" + "SCRATCH_SIZE=" + h.scratchSize + "\n" +
      "MOUNTS=" + h.mounts + "\n" + "SLOTS=" + h.slots + "\n"
  {
    var l := HeaderLines(h);
    assert l + ShareLines(rows[..0], show) == l;
    assert l[..3][..2] == l[..2] && l[..2][..1] == l[..1] && l[..1][..0] == [];
    assert Terminated(l[..1]) == "CID=" + h.cid + "\n";
    assert Terminated(l[..2]) == Terminated(l[..1]) + ("SCRATCH_SIZE=" + h.scratchSize) + "\n";
    assert Terminated(l[..3]) == Terminated(l[..2]) + ("MOUNTS=" + h.mounts) + "\n";
    assert Terminated(l) == Terminated(l[..3]) + ("SLOTS=" + h.slots) + "\n";
  }

  lemma NextLine<A>(h: Header, rows: seq<Row<A>>, i: nat, show: Show<A>)
    requires i < |rows|
    ensures Terminated(HeaderLines(h) + ShareLines(rows[..i + 1], show)) ==
      Terminated(HeaderLines(h) + ShareLines(rows[..i], show)) + ShareLine(rows[i], show) + "\n"
  {
    var before, after := HeaderLines(h) + ShareLines(rows[..i], show), HeaderLines(h) + ShareLines(rows[..i + 1], show);
    assert after == before + [ShareLine(rows[i], show)];
    assert after[..|after| - 1] == before;
  }

  // -------------------------------------------------------------------- parsing

  function Relevant(lines: seq<string>): seq<string> {
    if lines == [] then []
    else if '=' in lines[|lines| - 1] then Relevant(lines[..|lines| - 1]) + [lines[|lines| - 1]]
    else Relevant(lines[..|lines| - 1])
  }

  function Pair(line: string): (string, string) {
    var stripped := Strip(line);
    (Before(stripped, '='), Behind(stripped, '='))
  }

  // Assignment to a key of an insertion-ordered dictionary.
  function Set(pairs: seq<(string, string)>, key: string, val: string): seq<(string, string)> {
    if pairs == [] then [(key, val)]
    else if pairs[0].0 == key then [(key, val)] + pairs[1..]
    else [pairs[0]] + Set(pairs[1..], key, val)
  }

  function KeyValues(lines: seq<string>): seq<(string, string)> {
    if lines == [] then []
    else
      var pair := Pair(lines[|lines| - 1]);
      Set(KeyValues(lines[..|lines| - 1]), pair.0, pair.1)
  }

  function ParseShares<A>(slot: string, entries: seq<string>, read: Read<A>)
    : Option<map<string, A>>
  {
    if entries == [] then Some(map[])
    else match ParseShares(slot, entries[..|entries| - 1], read)
      case None => None
      case Some(shares) => AddShare(slot, shares, entries[|entries| - 1], read)
  }

  function AddShare<A>(slot: string, shares: map<string, A>, entry: string, read: Read<A>)
    : Option<map<string, A>>
  {
    var id, amount := Before(entry, ':'), Behind(entry, ':');
    if id == "" || amount == "" then Some(shares)
    else match read(slot, amount)
      case Amount(a) => Some(shares[id := a])
      case UnknownType => Some(shares)
      case Malformed => None
  }

  const SUFFIX := "_SHARES"

  function Enter<A>(nested: Nested<A>, pair: (string, string), read: Read<A>): Option<Nested<A>> {
    if EndsWith(pair.0, SUFFIX) then
      var slot := Lower(pair.0[..|pair.0| - 7]);
      match ParseShares(slot, Split(pair.1, ','), read)
      case None => None
      case Some(shares) => Some(Put(nested, Before(slot, '.'), slot, shares))
    else Some(nested)
  }

  function Entered<A>(pairs: seq<(string, string)>, read: Read<A>): Option<Nested<A>> {
    if pairs == [] then Some(map[])
    else match Entered(pairs[..|pairs| - 1], read)
      case None => None
      case Some(nested) => Enter(nested, pairs[|pairs| - 1], read)
  }

  function Get(pairs: seq<(string, string)>, key: string): Option<string> {
    if pairs == [] then None
    else if pairs[0].0 == key then Some(pairs[0].1)
    else Get(pairs[1..], key)
  }

  // A missing container ID is replaced, any other missing value is an error.
  function HeaderOf(pairs: seq<(string, string)>): Option<Header> {
    var cid, scratchSize := Get(pairs, "CID"), Get(pairs, "SCRATCH_SIZE");
    var mounts, slots := Get(pairs, "MOUNTS"), Get(pairs, "SLOTS");
    if mounts == None || scratchSize == None || slots == None then None
    else Some(Header(if cid == None then "unknown" else cid.value, scratchSize.value, mounts.value, slots.value))
  }

  function Parse<A>(text: string, read: Read<A>): Option<Spec<A>> {
    var pairs := KeyValues(Relevant(Split(text, '\n')));
    var allocations, header := Entered(pairs, read), HeaderOf(pairs);
    if allocations.None? || header.None? then None else Some(Spec(header.value, allocations.value))
  }

  // The same in the source's form: one loop collects the keys, the next one
  // interprets those of the allocations.
  method ReadText<A>(text: string, read: Read<A>) returns (spec: Option<Spec<A>>)
    ensures spec == Parse(text, read)
  {
    hide Strip, Before, Behind, Split, Lower, Set, HeaderOf;
    var lines := Split(text, '\n');
    var pairs: seq<(string, string)> := [];
    for i := 0 to |lines|
      invariant pairs == KeyValues(Relevant(lines[..i]))
    {
      assert lines[..i + 1][..i] == lines[..i];
      if '=' in lines[i] {
        var stripped := Strip(lines[i]);
        RelevantNext(lines, i);
        pairs := Set(pairs, Before(stripped, '='), Behind(stripped, '='));
      }
    }
    assert lines[..|lines|] == lines;
    var allocations: Nested<A> := map[];
    for i := 0 to |pairs|
      invariant Entered(pairs[..i], read) == Some(allocations)
    {
      var (key, val) := pairs[i];
      assert pairs[..i + 1][..i] == pairs[..i];
      if EndsWith(key, SUFFIX) {
        var slot := Lower(key[..|key| - 7]);
        var shares := ReadShares(slot, Split(val, ','), read);
        if shares.None? {
          EnteredStaysNone(pairs, i + 1, read);
          return None;
        }
        allocations := Put(allocations, Before(slot, '.'), slot, shares.value);
      }
    }
    assert pairs[..|pairs|] == pairs;
    var header := HeaderOf(pairs);
    return if header.None? then None else Some(Spec(header.value, allocations));
  }

  method ReadShares<A>(slot: string, entries: seq<string>, read: Read<A>)
    returns (shares: Option<map<string, A>>)
    ensures shares == ParseShares(slot, entries, read)
  {
    hide Before, Behind;
    var found: map<string, A> := map[];
    for j := 0 to |entries|
      invariant ParseShares(slot, entries[..j], read) == Some(found)
    {
      assert entries[..j + 1][..j] == entries[..j];
      var id, amount := Before(entries[j], ':'), Behind(entries[j], ':');
      if id != "" && amount != "" {
        match read(slot, amount)
        case Amount(a) => found := found[id := a];
        case UnknownType =>
        case Malformed =>
          ParseStaysNone(slot, entries, j + 1, read);
          return None;
      }
    }
    assert entries[..|entries|] == entries;
    return Some(found);
  }

  lemma {:induction false} ParseStaysNone<A>(slot: string, entries: seq<string>, j: nat, read: Read<A>)
    requires j <= |entries| && ParseShares(slot, entries[..j], read) == None
    ensures ParseShares(slot, entries, read) == None
  {
    if j == |entries| {
      assert entries[..j] == entries;
    } else {
      assert entries[..|entries| - 1][..j] == entries[..j];
      ParseStaysNone(slot, entries[..|entries| - 1], j, read);
    }
  }

  lemma {:induction false} EnteredStaysNone<A>(pairs: seq<(string, string)>, i: nat, read: Read<A>)
    requires i <= |pairs| && Entered(pairs[..i], read) == None
    ensures Entered(pairs, read) == None
  {
    if i == |pairs| {
      assert pairs[..i] == pairs;
    } else {
      assert pairs[..|pairs| - 1][..i] == pairs[..i];
      EnteredStaysNone(pairs[..|pairs| - 1], i, read);
    }
  }

  lemma RelevantNext(lines: seq<string>, i: nat)
    requires i < |lines| && '=' in lines[i]
    ensures KeyValues(Relevant(lines[..i + 1])) ==
      Set(KeyValues(Relevant(lines[..i])), Pair(lines[i]).0, Pair(lines[i]).1)
  {
    assert lines[..i + 1][..i] == lines[..i];
    var before := Relevant(lines[..i]);
    assert (before + [lines[i]])[..|before|] == before;
  }

  // ------------------------------------------------------------- what is readable

  predicate NoSpace(s: string) { forall c :: c in s ==> !IsSpace(c) }

  predicate OneLine(s: string) { '\n' !in s && '\r' !in s }

  // ASCII slot names in lower case, under dot-free device names.
  predicate CleanName<A>(row: Row<A>) {
    && Prefixed(row) && '.' !in row.device && row.slot != ""
    && NoSpace(row.slot) && '=' !in row.slot
    && forall c :: c in row.slot ==> !('A' <= c <= 'Z') && c as int < 0x80
  }

  // A delimiter-free, non-empty ID, and an amount that can be read back.
  predicate CleanShare<A(==)>(slot: string, share: (string, A), show: Show<A>, read: Read<A>) {
    && share.0 != "" && ':' !in share.0 && ',' !in share.0 && OneLine(share.0)
    && show(slot, share.1) != "" && NoSpace(show(slot, share.1)) && ',' !in show(slot, share.1)
    && read(slot, show(slot, share.1)) == Amount(share.1)
  }

  predicate CleanRow<A(==)>(row: Row<A>, show: Show<A>, read: Read<A>) {
    CleanName(row) && forall share :: share in row.shares ==> CleanShare(row.slot, share, show, read)
  }

  // One line without spaces at its end.
  predicate CleanValue(s: string) {
    OneLine(s) && (s == "" || !IsSpace(s[|s| - 1]))
  }

  predicate CleanHeader(h: Header) {
    CleanValue(h.cid) && CleanValue(h.scratchSize) && CleanValue(h.mounts) && CleanValue(h.slots)
  }

  ghost predicate DistinctSlots<A>(rows: seq<Row<A>>) {
    forall i, j :: 0 <= i < j < |rows| ==> rows[i].slot != rows[j].slot
  }

  // ------------------------------------------------------------------- the shares

  lemma PieceParses<A>(slot: string, share: (string, A), show: Show<A>, read: Read<A>)
    requires CleanShare(slot, share, show, read)
    ensures Before(Piece(slot, share, show), ':') == share.0
    ensures Behind(Piece(slot, share, show), ':') == show(slot, share.1)
    ensures ',' !in Piece(slot, share, show) && '\n' !in Piece(slot, share, show)
  {
    assert Piece(slot, share, show) == share.0 + [':'] + show(slot, share.1);
    CutAt(share.0, ':', show(slot, share.1));
  }

  lemma {:induction false} PiecesParse<A>(slot: string, shares: seq<(string, A)>, show: Show<A>, read: Read<A>)
    requires forall share :: share in shares ==> CleanShare(slot, share, show, read)
    ensures ParseShares(slot, Pieces(slot, shares, show), read) == Some(ShareMap(shares))
  {
    hide CleanShare, Piece, Before, Behind;
    if shares != [] {
      var n := |shares| - 1;
      PiecesParse(slot, shares[..n], show, read);
      assert Pieces(slot, shares, show)[..n] == Pieces(slot, shares[..n], show);
      PieceParses(slot, shares[n], show, read);
      AmountReads(slot, shares[n], show, read);
    }
  }

  lemma AmountReads<A>(slot: string, share: (string, A), show: Show<A>, read: Read<A>)
    requires CleanShare(slot, share, show, read)
    ensures share.0 != "" && show(slot, share.1) != "" && read(slot, show(slot, share.1)) == Amount(share.1)
  {}

  lemma SharesRoundTrip<A>(slot: string, shares: seq<(string, A)>, show: Show<A>, read: Read<A>)
    requires forall share :: share in shares ==> CleanShare(slot, share, show, read)
    ensures ParseShares(slot, Split(Join(Pieces(slot, shares, show), ','), ','), read) == Some(ShareMap(shares))
  {
    hide CleanShare, Piece, Before, Behind, Split;
    if shares == [] {
      NoShares(slot, read);
    } else {
      forall piece | piece in Pieces(slot, shares, show) ensures ',' !in piece {
        var i :| 0 <= i < |shares| && piece == Piece(slot, shares[i], show);
        PieceParses(slot, shares[i], show, read);
      }
      SplitJoin(Pieces(slot, shares, show), ',');
      PiecesParse(slot, shares, show, read);
    }
  }

  lemma NoShares<A>(slot: string, read: Read<A>)
    ensures ParseShares(slot, Split("", ','), read) == Some(map[])
  {
    assert Split("", ',') == [""] && [""][..0] == [];
    assert ParseShares(slot, [""][..0], read) == Some(map[]);
  }

  // -------------------------------------------------------------------- one line

  lemma {:induction false} JoinedPieces<A>(slot: string, shares: seq<(string, A)>, show: Show<A>, read: Read<A>)
    requires forall share :: share in shares ==> CleanShare(slot, share, show, read)
    ensures var val := Join(Pieces(slot, shares, show), ',');
      '\n' !in val && (val != "" ==> !IsSpace(val[|val| - 1]))
    decreases |shares|
  {
    hide IsSpace;
    if shares != [] {
      var pieces := Pieces(slot, shares, show);
      PieceParses(slot, shares[0], show, read);
      assert Pieces(slot, shares[1..], show) == pieces[1..];
      JoinedPieces(slot, shares[1..], show, read);
      if |shares| == 1 {
        var amount := show(slot, shares[0].1);
        assert pieces[0][|pieces[0]| - 1] == amount[|amount| - 1];
        assert amount[|amount| - 1] in amount;
      } else {
        var rest := Join(pieces[1..], ',');
        PieceParses(slot, shares[1], show, read);
        assert |rest| >= |pieces[1]| > 0;
      }
    }
  }

  function KeyOf<A>(row: Row<A>): string { Upper(row.slot) + SUFFIX }

  lemma KeyIsClean<A>(row: Row<A>)
    requires CleanName(row)
    ensures '=' !in KeyOf(row) && '\n' !in KeyOf(row) && !IsSpace(KeyOf(row)[0])
  {
    UpperAvoids(row.slot, '=');
    assert '\n' !in row.slot by {
      assert IsSpace('\n');
    }
    UpperAvoids(row.slot, '\n');
    assert row.slot[0] in row.slot;
  }

  lemma ShareLineParses<A>(row: Row<A>, show: Show<A>, read: Read<A>)
    requires CleanRow(row, show, read)
    ensures var line := ShareLine(row, show);
      '=' in line && '\n' !in line && Pair(line) == (KeyOf(row), Join(Pieces(row.slot, row.shares, show), ','))
  {
    hide Join, Pieces, CleanShare, CleanName, Upper, IsSpace, Before, Behind;
    var line, key, val := ShareLine(row, show), KeyOf(row), Join(Pieces(row.slot, row.shares, show), ',');
    KeyIsClean(row);
    JoinedPieces(row.slot, row.shares, show, read);
    assert line == key + ['='] + val;
    CutAt(key, '=', val);
    EqualsIsNoSpace();
    assert line[|key|] == '=' && line[0] == key[0];
    assert line[|line| - 1] == if val == "" then '=' else val[|val| - 1];
  }

  lemma EqualsIsNoSpace()
    ensures !IsSpace('=')
  {}

  lemma ShareLineEnters<A>(row: Row<A>, nested: Nested<A>, show: Show<A>, read: Read<A>)
    requires CleanRow(row, show, read)
    ensures Enter(nested, Pair(ShareLine(row, show)), read)
      == Some(Put(nested, row.device, row.slot, ShareMap(row.shares)))
  {
    hide Join, Pieces, CleanShare, Split, ParseShares, ShareMap, Pair, ShareLine;
    var key := KeyOf(row);
    ShareLineParses(row, show, read);
    assert key[..|key| - 7] == Upper(row.slot) && key[|key| - 7..] == SUFFIX;
    LowerUpper(row.slot);
    if row.slot == row.device {
      CutNone(row.slot, '.');
    } else {
      var rest := row.slot[|row.device| + 1..];
      assert row.slot == row.device + ['.'] + rest;
      CutAt(row.device, '.', rest);
    }
    SharesRoundTrip(row.slot, row.shares, show, read);
  }

  lemma HeaderLineParses(key: string, val: string)
    requires key != "" && NoSpace(key) && '=' !in key && CleanValue(val)
    ensures var line := key + "=" + val;
      '=' in line && '\n' !in line && Pair(line) == (key, val)
  {
    hide Before, Behind, IsSpace;
    var line := key + "=" + val;
    assert line == key + ['='] + val;
    CutAt(key, '=', val);
    EqualsIsNoSpace();
    assert line[0] == key[0] && key[0] in key;
    assert line[|key|] == '=' && line[|line| - 1] == if val == "" then '=' else val[|val| - 1];
    NewlineIsSpace();
  }

  lemma NewlineIsSpace()
    ensures IsSpace('\n')
  {}

  // ------------------------------------------------------------- all the lines

  function Pairs(lines: seq<string>): seq<(string, string)> {
    seq(|lines|, i requires 0 <= i < |lines| => Pair(lines[i]))
  }

  lemma {:induction false} SetAppends(pairs: seq<(string, string)>, key: string, val: string)
    requires forall p :: p in pairs ==> p.0 != key
    ensures Set(pairs, key, val) == pairs + [(key, val)]
  {
    if pairs != [] {
      SetAppends(pairs[1..], key, val);
      assert pairs == [pairs[0]] + pairs[1..];
    }
  }

  lemma {:induction false} DistinctKeyValues(lines: seq<string>)
    requires forall i, j :: 0 <= i < j < |lines| ==> Pair(lines[i]).0 != Pair(lines[j]).0
    ensures KeyValues(lines) == Pairs(lines)
  {
    hide Pair, Set;
    if lines != [] {
      var n := |lines| - 1;
      DistinctKeyValues(lines[..n]);
      assert Pairs(lines) == Pairs(lines[..n]) + [Pair(lines[n])];
      SetAppends(Pairs(lines[..n]), Pair(lines[n]).0, Pair(lines[n]).1);
    }
  }

  const HEADER_KEYS: seq<string> := ["CID", "SCRATCH_SIZE", "MOUNTS", "SLOTS"]

  function Values(h: Header): seq<string> { [h.cid, h.scratchSize, h.mounts, h.slots] }

  lemma HeaderParses(h: Header, i: nat)
    requires CleanHeader(h) && i < 4
    ensures var line := HeaderLines(h)[i];
      && '=' in line && '\n' !in line
      && Pair(line) == (HEADER_KEYS[i], Values(h)[i]) && !EndsWith(HEADER_KEYS[i], SUFFIX)
  {
    hide Pair, CleanValue;
    assert HeaderLines(h)[i] == HEADER_KEYS[i] + "=" + Values(h)[i];
    assert NoSpace(HEADER_KEYS[i]) && '=' !in HEADER_KEYS[i];
    HeaderLineParses(HEADER_KEYS[i], Values(h)[i]);
  }

  lemma {:induction false} GetAt(pairs: seq<(string, string)>, i: nat)
    requires i < |pairs| && forall j :: 0 <= j < i ==> pairs[j].0 != pairs[i].0
    ensures Get(pairs, pairs[i].0) == Some(pairs[i].1)
  {
    if i > 0 {
      assert pairs[1..][i - 1] == pairs[i];
      GetAt(pairs[1..], i - 1);
    }
  }

  lemma HeaderFound<A>(h: Header, rows: seq<Row<A>>, show: Show<A>)
    requires CleanHeader(h)
    ensures HeaderOf(Pairs(Lines(h, rows, show))) == Some(h)
  {
    hide Pair, CleanHeader, Get;
    var lines := Lines(h, rows, show);
    var pairs := Pairs(lines);
    forall i | 0 <= i < 4 ensures pairs[i] == (HEADER_KEYS[i], Values(h)[i]) {
      HeaderParses(h, i);
      assert lines[i] == HeaderLines(h)[i];
    }
    GetAt(pairs, 0);
    GetAt(pairs, 1);
    GetAt(pairs, 2);
    GetAt(pairs, 3);
  }

  function Lines<A>(h: Header, rows: seq<Row<A>>, show: Show<A>): seq<string> {
    HeaderLines(h) + ShareLines(rows, show)
  }

  lemma LineParses<A>(h: Header, rows: seq<Row<A>>, show: Show<A>, read: Read<A>, i: nat)
    requires CleanHeader(h) && (forall row :: row in rows ==> CleanRow(row, show, read)) && i < |rows| + 4
    ensures var line := Lines(h, rows, show)[i];
      && '=' in line && '\n' !in line
      && Pair(line).0 == (if i < 4 then HEADER_KEYS[i] else KeyOf(rows[i - 4]))
      && (i < 4 ==> !EndsWith(HEADER_KEYS[i], SUFFIX))
  {
    hide Pair, CleanRow, CleanHeader;
    if i < 4 {
      HeaderParses(h, i);
      assert Lines(h, rows, show)[i] == HeaderLines(h)[i];
    } else {
      ShareLineParses(rows[i - 4], show, read);
      assert Lines(h, rows, show)[i] == ShareLine(rows[i - 4], show);
    }
  }

  lemma KeysDiffer<A>(rows: seq<Row<A>>, i: nat, j: nat)
    requires i < j < |rows| + 4 && DistinctSlots(rows) && forall row :: row in rows ==> CleanName(row)
    ensures (if i < 4 then HEADER_KEYS[i] else KeyOf(rows[i - 4]))
      != if j < 4 then HEADER_KEYS[j] else KeyOf(rows[j - 4])
  {
    hide Upper, Lower;
    if j >= 4 {
      var key := KeyOf(rows[j - 4]);
      assert key[|key| - 7..] == SUFFIX;
      if i < 4 {
        assert !EndsWith(HEADER_KEYS[i], SUFFIX);
      } else {
        var a, b := rows[i - 4], rows[j - 4];
        assert a in rows && b in rows;
        assert CleanName(a) && CleanName(b);
        LowerUpper(a.slot);
        LowerUpper(b.slot);
        assert KeyOf(a)[..|KeyOf(a)| - 7] == Upper(a.slot) && key[..|key| - 7] == Upper(b.slot);
      }
    }
  }

  lemma {:induction false} LinesEnter<A>(h: Header, rows: seq<Row<A>>, show: Show<A>, read: Read<A>)
    requires CleanHeader(h) && forall row :: row in rows ==> CleanRow(row, show, read)
    ensures Entered(Pairs(Lines(h, rows, show)), read) == Some(Nest(rows))
  {
    hide Pair, CleanRow, CleanHeader, Put, ShareMap;
    var pairs := Pairs(Lines(h, rows, show));
    if rows == [] {
      HeaderEnters(h, show, read, rows, 4);
      assert pairs[..4] == pairs;
    } else {
      var n := |rows| - 1;
      LinesEnter(h, rows[..n], show, read);
      assert pairs[..|pairs| - 1] == Pairs(Lines(h, rows[..n], show));
      assert pairs[|pairs| - 1] == Pair(ShareLine(rows[n], show));
      ShareLineEnters(rows[n], Nest(rows[..n]), show, read);
    }
  }

  lemma {:induction false} HeaderEnters<A>(h: Header, show: Show<A>, read: Read<A>, rows: seq<Row<A>>, k: nat)
    requires CleanHeader(h) && rows == [] && k <= 4
    ensures Entered(Pairs(Lines(h, rows, show))[..k], read) == Some(map[])
  {
    hide Pair, CleanHeader;
    if k > 0 {
      var pairs := Pairs(Lines(h, rows, show));
      assert pairs[..k][..k - 1] == pairs[..k - 1];
      HeaderEnters(h, show, read, rows, k - 1);
      LineParses(h, rows, show, read, k - 1);
    }
  }

  // -------------------------------------------------------------------- newlines

  lemma {:induction false} TerminatedFront(lines: seq<string>)
    requires lines != []
    ensures Terminated(lines) == lines[0] + ['\n'] + Terminated(lines[1..])
  {
    var n := |lines| - 1;
    if n > 0 {
      TerminatedFront(lines[..n]);
      assert lines[..n][1..] == lines[1..][..n - 1];
    }
  }

  lemma {:induction false} RelevantAppend(a: seq<string>, b: seq<string>)
    ensures Relevant(a + b) == Relevant(a) + Relevant(b)
  {
    if b == [] {
      assert a + b == a;
    } else {
      assert (a + b)[..|a + b| - 1] == a + b[..|b| - 1];
      RelevantAppend(a, b[..|b| - 1]);
    }
  }

  lemma RelevantCons(line: string, rest: seq<string>)
    ensures Relevant([line] + rest) == if '=' in line then [line] + Relevant(rest) else Relevant(rest)
  {
    RelevantAppend([line], rest);
    assert [line][..0] == [];
  }

  lemma {:induction false} TerminatedSplits(lines: seq<string>)
    requires forall line :: line in lines ==> '=' in line && '\n' !in line
    ensures Relevant(Split(Terminated(lines), '\n')) == lines
  {
    if lines == [] {
      RelevantCons("", []);
      assert [""] + [] == [""];
    } else {
      var rest := Terminated(lines[1..]);
      TerminatedFront(lines);
      TerminatedSplits(lines[1..]);
      SplitAfter(lines[0], rest, '\n');
      RelevantCons(lines[0], Split(rest, '\n'));
      assert lines == [lines[0]] + lines[1..];
    }
  }

  // What read_from_file makes of a file's text: its lines keep their ends, and
  // are joined by further newlines.
  function ReadLines(text: string): seq<string>
    decreases |text|
  {
    if text == "" then []
    else if '\n' in text then
      BehindIsShorter(text, '\n');
      [Before(text, '\n') + "\n"] + ReadLines(Behind(text, '\n'))
    else [text]
  }

  lemma {:induction false} BehindIsShorter(s: string, c: char)
    requires s != ""
    ensures |Behind(s, c)| < |s|
  {
    if s[0] != c && s[1..] != "" {
      BehindIsShorter(s[1..], c);
    }
  }

  function Reread(text: string): string { Join(ReadLines(text), '\n') }

  lemma RereadFront(first: string, tail: string)
    requires '\n' !in first
    ensures Reread(first + ['\n'] + tail) ==
      first + ['\n'] + if ReadLines(tail) == [] then "" else ['\n'] + Reread(tail)
  {
    hide Before, Behind;
    var text, more := first + ['\n'] + tail, ReadLines(tail);
    CutAt(first, '\n', tail);
    assert text[|first|] == '\n';
    assert ReadLines(text) == [first + "\n"] + more && ([first + "\n"] + more)[1..] == more;
  }

  // One line more, whatever follows it.
  lemma RereadLine(first: string, tail: string)
    requires '=' in first && '\n' !in first
    ensures Relevant(Split(Reread(first + ['\n'] + tail), '\n')) == [first] + Relevant(Split(Reread(tail), '\n'))
  {
    hide Split, ReadLines, Join, Relevant;
    RereadFront(first, tail);
    var after := if ReadLines(tail) == [] then "" else ['\n'] + Reread(tail);
    SplitAfter(first, after, '\n');
    RelevantCons(first, Split(after, '\n'));
    if ReadLines(tail) == [] {
      NothingToReread(tail);
    } else {
      assert after == "" + ['\n'] + Reread(tail);
      SplitAfter("", Reread(tail), '\n');
      RelevantCons("", Split(Reread(tail), '\n'));
    }
  }

  lemma {:induction false} RereadSplits(lines: seq<string>)
    requires forall line :: line in lines ==> '=' in line && '\n' !in line
    ensures Relevant(Split(Reread(Terminated(lines)), '\n')) == lines
  {
    if lines == [] {
      RelevantCons("", []);
      assert [""] + [] == [""];
    } else {
      hide Split, Terminated, Reread, Relevant;
      TerminatedFront(lines);
      RereadLine(lines[0], Terminated(lines[1..]));
      RereadSplits(lines[1..]);
      assert lines == [lines[0]] + lines[1..];
    }
  }

  lemma NothingToReread(tail: string)
    requires ReadLines(tail) == []
    ensures Reread(tail) == ""
  {}

  // ------------------------------------------------------------------ round trips

  // Printing and then parsing gives back the header and the nested allocations,
  // also when the text went through a file.
  lemma TextRoundTrip<A>(h: Header, rows: seq<Row<A>>, show: Show<A>, read: Read<A>)
    requires CleanHeader(h) && DistinctSlots(rows) && forall row :: row in rows ==> CleanRow(row, show, read)
    ensures var text := Terminated(HeaderLines(h) + ShareLines(rows, show));
      Parse(text, read) == Some(Spec(h, Nest(rows))) && Parse(Reread(text), read) == Some(Spec(h, Nest(rows)))
  {
    hide Pair, CleanRow, CleanHeader, Reread, Split, Terminated, Entered, KeyValues, Relevant, HeaderOf;
    var lines := Lines(h, rows, show);
    forall line | line in lines ensures '=' in line && '\n' !in line {
      var i :| 0 <= i < |lines| && lines[i] == line;
      LineParses(h, rows, show, read, i);
    }
    forall i, j | 0 <= i < j < |lines| ensures Pair(lines[i]).0 != Pair(lines[j]).0 {
      LineParses(h, rows, show, read, i);
      LineParses(h, rows, show, read, j);
      NamesAreClean(rows, show, read);
      KeysDiffer(rows, i, j);
    }
    DistinctKeyValues(lines);
    LinesEnter(h, rows, show, read);
    HeaderFound(h, rows, show);
    TerminatedSplits(lines);
    RereadSplits(lines);
  }

  lemma NamesAreClean<A>(rows: seq<Row<A>>, show: Show<A>, read: Read<A>)
    requires forall row :: row in rows ==> CleanRow(row, show, read)
    ensures forall row :: row in rows ==> CleanName(row)
  {}

  // The rows list the nested mapping: each slot's shares are found under its
  // device, and nothing else is.
  lemma {:induction false} NestListsRows<A>(rows: seq<Row<A>>, device: string, slot: string)
    requires DistinctSlots(rows)
    ensures (device in Nest(rows) && slot in Nest(rows)[device]) <==> Listed(rows, device, slot)
    ensures forall i :: 0 <= i < |rows| && rows[i].device == device && rows[i].slot == slot ==>
      Listed(rows, device, slot) && Nest(rows)[device][slot] == ShareMap(rows[i].shares)
  {
    hide ShareMap;
    if rows != [] {
      var n := |rows| - 1;
      var init, row := rows[..n], rows[n];
      NestListsRows(init, device, slot);
      assert forall i :: 0 <= i < n ==> init[i] == rows[i];
      if row.device == device && row.slot == slot {
        assert Listed(rows, device, slot);
      } else if Listed(init, device, slot) {
        var i :| 0 <= i < n && init[i].device == device && init[i].slot == slot;
        assert rows[i].device == device;
      }
    }
  }

  ghost predicate Listed<A>(rows: seq<Row<A>>, device: string, slot: string) {
    exists i :: 0 <= i < |rows| && rows[i].device == device && rows[i].slot == slot
  }
}
