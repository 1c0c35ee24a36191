// The session-scoped float-intent store: what an accepted write leaves on disk
// reads back as the normalised lists, and the replacement is atomic.

module IntentCodec {
  import opened Prelude

  const MAX_MEMBERS := 1024
  const MAX_MEMBER_ID_LEN := 128
  const MAX_NAMESPACE_FIELD_LEN := 256
  const MAX_STORE_FILE_BYTES := 262144

  predicate AsciiAlphanumeric(c: char) { '0' <= c <= '9' || 'a' <= c <= 'z' || 'A' <= c <= 'Z' }
  predicate IdChar(c: char) { AsciiAlphanumeric(c) || c in "-_." }
  predicate HexDigit(c: char) { '0' <= c <= '9' || 'a' <= c <= 'f' || 'A' <= c <= 'F' }

  predicate Opaque(s: string) {
    0 < |s| <= MAX_MEMBER_ID_LEN && forall c <- s :: IdChar(c)
  }

  /** Dash-separated runs of hexadecimal digits of exactly the given lengths. */
  predicate HexRuns(text: string, lens: seq<nat>) {
    if lens == [] || |text| < lens[0] || !(forall c <- text[..lens[0]] :: HexDigit(c)) then false
    else if |lens| == 1 then |text| == lens[0]
    else |text| > lens[0] && text[lens[0]] == '-' && HexRuns(text[lens[0] + 1..], lens[1..])
  }

  predicate UuidText(text: string) { HexRuns(text, [8, 4, 4, 4, 12]) }

  /** Opaque ids pass through, one exact braced UUID unwraps, anything else is refused. */
  function Normalize(value: string): Option<string> {
    if Opaque(value) then Some(value)
    else if |value| == 38 && value[0] == '{' && value[37] == '}' && UuidText(value[1..37]) && Opaque(value[1..37])
    then Some(value[1..37])
    else None
  }

  /** The letters, digits and marks of an opaque id. */
  ghost predicate Marked(c: char) {
    'a' <= c <= 'z' || 'A' <= c <= 'Z' || '0' <= c <= '9' || c == '-' || c == '_' || c == '.'
  }

  /** A UUID as text: 36 characters, dashes in the four places, hexadecimal digits of either case elsewhere. */
  ghost predicate UuidShaped(text: string) {
    |text| == 36 && forall i | 0 <= i < 36 ::
      if i == 8 || i == 13 || i == 18 || i == 23 then text[i] == '-'
      else '0' <= text[i] <= '9' || 'a' <= text[i] <= 'f' || 'A' <= text[i] <= 'F'
  }

  lemma OpaqueIs(s: string)
    ensures Opaque(s) <==> 1 <= |s| <= 128 && forall i | 0 <= i < |s| :: Marked(s[i])
  {
    if Opaque(s) {
      forall i | 0 <= i < |s|
        ensures Marked(s[i])
      {
        assert s[i] in s;
      }
    }
  }

  lemma HexRun(text: string, n: nat)
    requires n <= |text|
    ensures (forall c <- text[..n] :: HexDigit(c)) <==>
              forall i | 0 <= i < n :: '0' <= text[i] <= '9' || 'a' <= text[i] <= 'f' || 'A' <= text[i] <= 'F'
  {
    if forall c <- text[..n] :: HexDigit(c) {
      forall i | 0 <= i < n
        ensures HexDigit(text[i])
      {
        assert text[..n][i] in text[..n];
      }
    }
  }

  lemma HexRunsStep(text: string, n: nat, lens: seq<nat>)
    requires lens != []
    ensures HexRuns(text, [n] + lens) <==>
              && |text| > n && text[n] == '-' && HexRuns(text[n + 1..], lens)
              && forall i | 0 <= i < n :: '0' <= text[i] <= '9' || 'a' <= text[i] <= 'f' || 'A' <= text[i] <= 'F'
  {
    assert ([n] + lens)[1..] == lens;
    if n <= |text| { HexRun(text, n); }
  }

  lemma LastHexRun(text: string, n: nat)
    ensures HexRuns(text, [n]) <==> |text| == n && forall i | 0 <= i < n :: '0' <= text[i] <= '9' || 'a' <= text[i] <= 'f' || 'A' <= text[i] <= 'F'
  {
    if n <= |text| { HexRun(text, n); }
  }

  lemma UuidIs(text: string)
    ensures UuidText(text) <==> UuidShaped(text)
  {
    HexRunsStep(text, 8, [4, 4, 4, 12]);
    assert [8] + [4, 4, 4, 12] == [8, 4, 4, 4, 12];
    if |text| > 8 {
      var b := text[9..];
      HexRunsStep(b, 4, [4, 4, 12]);
      assert [4] + [4, 4, 12] == [4, 4, 4, 12];
      if |b| > 4 {
        var c := b[5..];
        HexRunsStep(c, 4, [4, 12]);
        assert [4] + [4, 12] == [4, 4, 12];
        if |c| > 4 {
          var d := c[5..];
          HexRunsStep(d, 4, [12]);
          assert [4] + [12] == [4, 12];
          if |d| > 4 {
            var e := d[5..];
            LastHexRun(e, 12);
            assert forall i | 0 <= i < |b| :: b[i] == text[9 + i];
            assert forall i | 0 <= i < |c| :: c[i] == text[14 + i];
            assert forall i | 0 <= i < |d| :: d[i] == text[19 + i];
            assert forall i | 0 <= i < |e| :: e[i] == text[24 + i];
          }
        }
      }
    }
  }

  /** An opaque id stands for itself, a UUID in braces for what is between them, and nothing else for anything. */
  lemma NormalizeAccepts(value: string)
    ensures (1 <= |value| <= 128 && forall i | 0 <= i < |value| :: Marked(value[i])) ==> Normalize(value) == Some(value)
    ensures |value| == 38 && value[0] == '{' && value[37] == '}' && UuidShaped(value[1..37]) ==> Normalize(value) == Some(value[1..37])
    ensures Normalize(value).Some? ==>
              || (1 <= |value| <= 128 && forall i | 0 <= i < |value| :: Marked(value[i]))
              || (|value| == 38 && value[0] == '{' && value[37] == '}' && UuidShaped(value[1..37]))
  {
    OpaqueIs(value);
    if |value| == 38 && value[0] == '{' {
      var inner := value[1..37];
      OpaqueIs(inner);
      UuidIs(inner);
      UuidIsOpaque(inner);
      assert value[0] in value;
    }
  }

  lemma NormalizedIsStable(value: string)
    requires Normalize(value).Some?
    ensures Opaque(Normalize(value).value)
    ensures Normalize(Normalize(value).value) == Normalize(value)
  {
  }

  /** Braced and bare spellings of a UUID are the same member, and nothing else is identified. */
  lemma NormalizeIdentifies(a: string, b: string)
    requires Normalize(a).Some?
    ensures Normalize(a) == Normalize(b) <==>
            a == b || (UuidText(a) && b == "{" + a + "}") || (UuidText(b) && a == "{" + b + "}")
  {
    UuidIsOpaque(a);
    UuidIsOpaque(b);
    BracedIsNotOpaque(a);
    BracedIsNotOpaque(b);
  }

  lemma UuidIsOpaque(s: string)
    ensures UuidText(s) ==> |s| == 36 && Opaque(s)
    ensures UuidText(s) ==> |"{" + s + "}"| == 38 && ("{" + s + "}")[1..37] == s
    ensures UuidText(s) ==> ("{" + s + "}")[0] == '{' && ("{" + s + "}")[37] == '}'
  {
    if UuidText(s) {
      HexRunsAreIdChars(s, [8, 4, 4, 4, 12]);
    }
  }

  function RunsLength(lens: seq<nat>): nat {
    if lens == [] then 0 else if |lens| == 1 then lens[0] else lens[0] + 1 + RunsLength(lens[1..])
  }

  lemma {:induction false} HexRunsAreIdChars(text: string, lens: seq<nat>)
    requires HexRuns(text, lens)
    ensures |text| == RunsLength(lens) && forall c <- text :: IdChar(c)
  {
    var n := lens[0];
    if |lens| == 1 {
      assert text[..n] == text;
    } else {
      HexRunsAreIdChars(text[n + 1..], lens[1..]);
      assert text == text[..n] + [text[n]] + text[n + 1..];
    }
  }

  lemma BracedIsNotOpaque(s: string)
    ensures s != "" && s[0] == '{' ==> !Opaque(s)
    ensures |s| == 38 && s[0] == '{' && s[37] == '}' ==> s == "{" + s[1..37] + "}"
  {
    if s != "" && s[0] == '{' {
      assert s[0] in s;
    }
  }

  datatype RawNamespace = RawNamespace(bus: string, kwin: string)

  predicate ValidField(s: string) {
    0 < |s| <= MAX_NAMESPACE_FIELD_LEN && forall c <- s :: AsciiAlphanumeric(c) || c in "-_.:{}"
  }

  /** The serving bus and the current owner, both validated. */
  type IntentNamespace = n: RawNamespace | ValidField(n.bus) && ValidField(n.kwin) witness RawNamespace("b", ":1.1")

  /** All members normalised, in order. */
  ghost predicate NormalisesTo(members: seq<string>, out: seq<string>) {
    |out| == |members| && forall i | 0 <= i < |out| :: Normalize(members[i]) == Some(out[i])
  }

  /** A list as it is stored: bounded, every id opaque, none twice. */
  ghost predicate Canonical(out: seq<string>) {
    |out| <= MAX_MEMBERS && NoDup(out) && forall id <- out :: Opaque(id)
  }

  ghost predicate Disjoint(a: seq<string>, b: seq<string>) {
    forall id <- a :: id !in b
  }

  /** The accepted outcome is the only one the members allow. */
  ghost predicate Accepts(members: seq<string>, out: Option<seq<string>>) {
    match out
    case Some(ids) => NormalisesTo(members, ids) && Canonical(ids)
    case None => !exists ids :: NormalisesTo(members, ids) && Canonical(ids)
  }

  lemma AcceptsUnique(members: seq<string>, a: Option<seq<string>>, b: Option<seq<string>>)
    requires Accepts(members, a) && Accepts(members, b)
    ensures a == b
  {
    if a.Some? && b.Some? {
      assert a.value == b.value;
    }
  }

  lemma CanonicalIsAccepted(ids: seq<string>)
    requires Canonical(ids)
    ensures Accepts(ids, Some(ids))
  {
    assert forall i | 0 <= i < |ids| :: ids[i] in ids;
  }

  lemma Refuses(members: seq<string>, i: nat)
    requires i < |members| && Normalize(members[i]).None?
    ensures Accepts(members, None)
  {
  }

  /** Normalise each member, then refuse any repetition. */
  method NormalizeAll(members: seq<string>) returns (r: Option<seq<string>>)
    ensures Accepts(members, r)
  {
    if |members| > MAX_MEMBERS {
      return None;
    }
    var out: seq<string> := [];
    for i := 0 to |members|
      invariant NormalisesTo(members[..i], out)
    {
      var id := Normalize(members[i]);
      if id.None? {
        Refuses(members, i);
        return None;
      }
      out := out + [id.value];
    }
    var seen: set<string> := {};
    for i := 0 to |out|
      invariant NoDup(out[..i]) && forall id :: id in seen <==> id in out[..i]
    {
      if out[i] in seen {
        OnlyNormalisation(members[..|members|], out);
        assert members[..|members|] == members;
        return None;
      }
      seen := seen + {out[i]};
      assert out[..i + 1] == out[..i] + [out[i]];
    }
    assert members[..|members|] == members && out[..|out|] == out;
    forall id <- out
      ensures Opaque(id)
    {
      var i :| 0 <= i < |out| && out[i] == id;
      NormalizedIsStable(members[i]);
    }
    r := Some(out);
  }

  lemma OnlyNormalisation(members: seq<string>, out: seq<string>)
    requires NormalisesTo(members, out)
    ensures forall ids | NormalisesTo(members, ids) :: ids == out
  {
  }

  // ---- the stored layout ----

  datatype Outcome<+T> = Bad | Good(value: T) {
    predicate IsFailure() { Bad? }
    function PropagateFailure<U>(): Outcome<U> requires Bad? { Bad }
    function Extract(): T requires Good? { value }
  }

  datatype StoreFile = StoreFile(bus: string, kwin: string, members: seq<string>, tile: seq<string>)

  predicate PlainChar(c: char) { ' ' <= c && c != '"' && c != '\\' }

  function Quote(s: string): string { "\"" + s + "\"" }

  function Items(ids: seq<string>): string
    requires ids != []
  {
    if |ids| == 1 then Quote(ids[0]) else Quote(ids[0]) + "," + Items(ids[1..])
  }

  function List(ids: seq<string>): string {
    "[" + (if ids == [] then "" else Items(ids)) + "]"
  }

  /** The stored layout up to the member list, and whatever follows it. */
  function Front(n: IntentNamespace, members: seq<string>, rest: string): string {
    "{\"v\":1,\"bus\":" + (Quote(n.bus) + (",\"kwin\":" + (Quote(n.kwin) + (",\"members\":" + (List(members) + rest)))))
  }

  function Body(n: IntentNamespace, members: seq<string>, tile: seq<string>): string {
    Front(n, members, ",\"tile\":" + (List(tile) + "}"))
  }

  /** A body from before tile overrides existed. */
  function BodyWithoutTile(n: IntentNamespace, members: seq<string>): string {
    Front(n, members, "}")
  }

  function Expect(token: string, s: string): Outcome<string> {
    if token <= s then Good(s[|token|..]) else Bad
  }

  function TakeText(s: string): (r: Outcome<(string, string)>)
    ensures r.Good? ==> |r.value.1| < |s|
  {
    if s == "" then Bad
    else if s[0] == '"' then Good(("", s[1..]))
    else if !PlainChar(s[0]) then Bad
    else
      var (text, rest) :- TakeText(s[1..]);
      Good(([s[0]] + text, rest))
  }

  function ReadString(s: string): (r: Outcome<(string, string)>)
    ensures r.Good? ==> |r.value.1| < |s|
  {
    var s1 :- Expect("\"", s);
    TakeText(s1)
  }

  function ReadItems(s: string): Outcome<(seq<string>, string)>
    decreases |s|
  {
    var (id, s1) :- ReadString(s);
    if s1 != "" && s1[0] == ',' then
      var (ids, s2) :- ReadItems(s1[1..]);
      Good(([id] + ids, s2))
    else
      Good(([id], s1))
  }

  function ReadList(s: string): Outcome<(seq<string>, string)> {
    var s1 :- Expect("[", s);
    if s1 != "" && s1[0] == ']' then Good(([], s1[1..]))
    else
      var (ids, s2) :- ReadItems(s1);
      var s3 :- Expect("]", s2);
      Good((ids, s3))
  }

  function ReadTile(s: string): Outcome<seq<string>> {
    if s == "}" then Good([])
    else
      var s1 :- Expect(",\"tile\":", s);
      var (tile, s2) :- ReadList(s1);
      if s2 == "}" then Good(tile) else Bad
  }

  function Decode(s: string): Outcome<StoreFile> {
    var s1 :- Expect("{\"v\":1,\"bus\":", s);
    var (bus, s2) :- ReadString(s1);
    var s3 :- Expect(",\"kwin\":", s2);
    var (kwin, s4) :- ReadString(s3);
    var s5 :- Expect(",\"members\":", s4);
    var (members, s6) :- ReadList(s5);
    var tile :- ReadTile(s6);
    Good(StoreFile(bus, kwin, members, tile))
  }

  lemma ExpectBack(token: string, rest: string)
    ensures Expect(token, token + rest) == Good(rest)
  {
  }

  predicate Plain(s: string) { forall c <- s :: PlainChar(c) }

  lemma {:induction false} TakeTextBack(s: string, rest: string)
    requires Plain(s)
    ensures TakeText(s + "\"" + rest) == Good((s, rest))
  {
    if s == "" {
      assert s + "\"" + rest == "\"" + rest;
    } else {
      assert s[0] in s;
      var all := s + "\"" + rest;
      assert all[0] == s[0] && PlainChar(s[0]) && all[1..] == s[1..] + "\"" + rest;
      TakeTextBack(s[1..], rest);
      assert [s[0]] + s[1..] == s;
    }
  }

  lemma ReadStringBack(s: string, rest: string)
    requires Plain(s)
    ensures ReadString(Quote(s) + rest) == Good((s, rest))
  {
    assert Quote(s) + rest == "\"" + (s + "\"" + rest);
    ExpectBack("\"", s + "\"" + rest);
    TakeTextBack(s, rest);
  }

  lemma {:induction false} ReadItemsBack(ids: seq<string>, rest: string)
    requires ids != [] && (forall id <- ids :: Plain(id))
    requires rest != "" && rest[0] != ','
    ensures ReadItems(Items(ids) + rest) == Good((ids, rest))
  {
    assert Plain(ids[0]);
    if |ids| == 1 {
      ReadStringBack(ids[0], rest);
      assert ids == [ids[0]];
    } else {
      assert ids == [ids[0]] + ids[1..];
      assert Items(ids) + rest == Quote(ids[0]) + ("," + (Items(ids[1..]) + rest));
      ReadStringBack(ids[0], "," + (Items(ids[1..]) + rest));
      assert ("," + (Items(ids[1..]) + rest))[1..] == Items(ids[1..]) + rest;
      ReadItemsBack(ids[1..], rest);
    }
  }

  lemma {:induction false} ItemsLength(ids: seq<string>)
    requires ids != []
    ensures |Items(ids)| >= 2 * |ids| && Items(ids)[0] == '"'
  {
    if |ids| > 1 {
      ItemsLength(ids[1..]);
    }
  }

  lemma ReadListBack(ids: seq<string>, rest: string)
    requires forall id <- ids :: Plain(id)
    ensures ReadList(List(ids) + rest) == Good((ids, rest))
  {
    var inner := (if ids == [] then "" else Items(ids)) + ("]" + rest);
    assert List(ids) + rest == "[" + inner;
    ExpectBack("[", inner);
    if ids == [] {
      assert inner == "]" + rest;
    } else {
      ItemsLength(ids);
      ReadItemsBack(ids, "]" + rest);
      assert inner == Items(ids) + ("]" + rest) && inner[0] == '"';
      ExpectBack("]", rest);
    }
  }

  lemma OpaqueIsPlain(ids: seq<string>)
    requires forall id <- ids :: Opaque(id)
    ensures forall id <- ids :: Plain(id)
  {
  }

  /** What was written is what decoding finds, with or without a tile list. */
  lemma DecodeBack(n: IntentNamespace, members: seq<string>, tile: seq<string>)
    requires forall id <- members :: Opaque(id)
    requires forall id <- tile :: Opaque(id)
    ensures Decode(Body(n, members, tile)) == Good(StoreFile(n.bus, n.kwin, members, tile))
    ensures Decode(BodyWithoutTile(n, members)) == Good(StoreFile(n.bus, n.kwin, members, []))
  {
    OpaqueIsPlain(members);
    OpaqueIsPlain(tile);
    FrontBack(n, members, ",\"tile\":" + (List(tile) + "}"));
    FrontBack(n, members, "}");
    ExpectBack(",\"tile\":", List(tile) + "}");
    ReadListBack(tile, "}");
  }

  lemma FrontBack(n: IntentNamespace, members: seq<string>, rest: string)
    requires forall id <- members :: Plain(id)
    ensures Decode(Front(n, members, rest)) ==
            if ReadTile(rest).Bad? then Bad else Good(StoreFile(n.bus, n.kwin, members, ReadTile(rest).value))
  {
    var s5 := List(members) + rest;
    var s3 := Quote(n.kwin) + (",\"members\":" + s5);
    var s1 := Quote(n.bus) + (",\"kwin\":" + s3);
    assert forall c <- "-_.:{}" :: PlainChar(c);
    ExpectBack("{\"v\":1,\"bus\":", s1);
    ReadStringBack(n.bus, ",\"kwin\":" + s3);
    ExpectBack(",\"kwin\":", s3);
    ReadStringBack(n.kwin, ",\"members\":" + s5);
    ExpectBack(",\"members\":", s5);
    ReadListBack(members, rest);
  }

  // ---- parsing under a namespace ----

  datatype Reason = Unreadable | Corrupt | NamespaceMismatch

  datatype Parsed = Ok(members: seq<string>, tile: seq<string>) | Err(reason: Reason)

  /** What a body means under a namespace. */
  ghost predicate Means(body: string, n: IntentNamespace, r: Parsed) {
    match Decode(body)
    case Bad => r == Err(Corrupt)
    case Good(f) =>
      if f.bus != n.bus || f.kwin != n.kwin then r == Err(NamespaceMismatch)
      else match r
        case Ok(members, tile) =>
          Accepts(f.members, Some(members)) && Accepts(f.tile, Some(tile)) && Disjoint(members, tile)
        case Err(reason) =>
          reason == Corrupt &&
          !exists members, tile :: Accepts(f.members, Some(members)) && Accepts(f.tile, Some(tile)) && Disjoint(members, tile)
  }

  lemma MeaningUnique(body: string, n: IntentNamespace, a: Parsed, b: Parsed)
    requires Means(body, n, a) && Means(body, n, b)
    ensures a == b
  {
    if a.Ok? && b.Ok? {
      var f := Decode(body).value;
      AcceptsUnique(f.members, Some(a.members), Some(b.members));
      AcceptsUnique(f.tile, Some(a.tile), Some(b.tile));
    }
  }

  method ParseStoreBytes(body: string, n: IntentNamespace) returns (r: Parsed)
    ensures Means(body, n, r)
  {
    var file := Decode(body);
    if file.Bad? {
      return Err(Corrupt);
    }
    if file.value.bus != n.bus || file.value.kwin != n.kwin {
      return Err(NamespaceMismatch);
    }
    var members := NormalizeAll(file.value.members);
    if members.None? {
      return Err(Corrupt);
    }
    var tile := NormalizeAll(file.value.tile);
    if tile.None? {
      return Err(Corrupt);
    }
    if exists id <- members.value :: id in tile.value {
      OnlyPair(file.value, members.value, tile.value);
      return Err(Corrupt);
    }
    r := Ok(members.value, tile.value);
  }

  lemma OnlyPair(f: StoreFile, members: seq<string>, tile: seq<string>)
    requires Accepts(f.members, Some(members)) && Accepts(f.tile, Some(tile)) && !Disjoint(members, tile)
    ensures !exists m, t :: Accepts(f.members, Some(m)) && Accepts(f.tile, Some(t)) && Disjoint(m, t)
  {
    forall m, t | Accepts(f.members, Some(m)) && Accepts(f.tile, Some(t))
      ensures !Disjoint(m, t)
    {
      AcceptsUnique(f.members, Some(m), Some(members));
      AcceptsUnique(f.tile, Some(t), Some(tile));
    }
  }

  /** A stored snapshot reads back under its own namespace as exactly the two lists, and is
      refused under any other; a body without a tile list reads as an empty one. */
  lemma StoredBodyReadsBack(n: IntentNamespace, other: IntentNamespace, members: seq<string>, tile: seq<string>)
    requires Canonical(members) && Canonical(tile) && Disjoint(members, tile)
    ensures Means(Body(n, members, tile), other, if other == n then Ok(members, tile) else Err(NamespaceMismatch))
    ensures Means(BodyWithoutTile(n, members), other, if other == n then Ok(members, []) else Err(NamespaceMismatch))
  {
    DecodeBack(n, members, tile);
    CanonicalIsAccepted(members);
    CanonicalIsAccepted(tile);
    CanonicalIsAccepted([]);
  }

  /** Whatever bytes are read, an accepted parse is canonical and disjoint, and storing it
      again would read back the same. */
  lemma ParsedIsStorable(body: string, n: IntentNamespace, members: seq<string>, tile: seq<string>)
    requires Means(body, n, Ok(members, tile))
    ensures Canonical(members) && Canonical(tile) && Disjoint(members, tile)
    ensures Means(Body(n, members, tile), n, Ok(members, tile))
  {
    StoredBodyReadsBack(n, n, members, tile);
  }

  // ---- the size bound ----

  function TotalLength(ids: seq<string>): nat {
    if ids == [] then 0 else |ids[0]| + TotalLength(ids[1..])
  }

  lemma {:induction false} ItemsSize(ids: seq<string>)
    requires ids != []
    ensures |Items(ids)| == TotalLength(ids) + 3 * |ids| - 1
  {
    if |ids| > 1 {
      ItemsSize(ids[1..]);
    }
  }

  lemma BodySize(n: IntentNamespace, members: seq<string>, tile: seq<string>)
    ensures |Body(n, members, tile)| ==
            49 + |n.bus| + |n.kwin| + TotalLength(members) + TotalLength(tile)
            + (if members == [] then 0 else 3 * |members| - 1) + (if tile == [] then 0 else 3 * |tile| - 1)
  {
    if members != [] { ItemsSize(members); }
    if tile != [] { ItemsSize(tile); }
  }

  lemma {:induction false} TotalBound(ids: seq<string>)
    requires forall id <- ids :: Opaque(id)
    ensures |ids| <= TotalLength(ids) <= MAX_MEMBER_ID_LEN * |ids|
  {
    if ids != [] {
      assert Opaque(ids[0]);
      TotalBound(ids[1..]);
    }
  }

  /** A full snapshot of one side always fits the cap, whatever the ids and the namespace. */
  lemma OneSideAlwaysFits(n: IntentNamespace, ids: seq<string>)
    requires Canonical(ids)
    ensures |Body(n, ids, [])| <= MAX_STORE_FILE_BYTES && |Body(n, [], ids)| <= MAX_STORE_FILE_BYTES
  {
    TotalBound(ids);
    BodySize(n, ids, []);
    BodySize(n, [], ids);
  }

  /** Two full sides of ids of the longest length never fit: the cap does refuse valid lists. */
  lemma TwoFullSidesNeverFit(n: IntentNamespace, members: seq<string>, tile: seq<string>)
    requires |members| == |tile| == MAX_MEMBERS
    requires TotalLength(members) == TotalLength(tile) == MAX_MEMBER_ID_LEN * MAX_MEMBERS
    ensures |Body(n, members, tile)| > MAX_STORE_FILE_BYTES
  {
    BodySize(n, members, tile);
  }

  // ---- pruning to the live inventory ----

  function Allowed(live: seq<string>): set<string> {
    set value | value in live && Normalize(value).Some? :: Normalize(value).value
  }

  function Pruned(ids: seq<string>, live: Option<seq<string>>): seq<string> {
    match live
    case None => ids
    case Some(inventory) => Filter(id => id in Allowed(inventory), ids)
  }

  /** a is b with some elements left out. */
  ghost predicate Embeds<T>(a: seq<T>, b: seq<T>) {
    if a == [] then true
    else if b == [] then false
    else if a[0] == b[0] && Embeds(a[1..], b[1..]) then true
    else Embeds(a, b[1..])
  }

  lemma {:induction false} FilterEmbeds<T>(p: T -> bool, s: seq<T>)
    ensures Embeds(Filter(p, s), s)
  {
    if s != [] {
      FilterEmbeds(p, s[1..]);
      var f := Filter(p, s);
      if p(s[0]) {
        assert f[1..] == Filter(p, s[1..]);
      }
    }
  }

  /** A pruned list is the stored one, in order, less the ids no live entry normalises to. */
  lemma PrunedIsOrderedIntersection(ids: seq<string>, live: seq<string>, id: string)
    requires NoDup(ids)
    ensures NoDup(Pruned(ids, Some(live))) && Embeds(Pruned(ids, Some(live)), ids)
    ensures id in Pruned(ids, Some(live)) <==> id in ids && exists value <- live :: Normalize(value) == Some(id)
  {
    var keep := (x: string) => x in Allowed(live);
    FilterMembers(keep, ids);
    FilterNoDup(keep, ids);
    FilterEmbeds(keep, ids);
    assert id in Allowed(live) <==> exists value <- live :: Normalize(value) == Some(id);
  }
}
