/** The pure parts of the remote-unit client: percent-encoding of URL
    components (sections 2.1 and 2.3 of RFC 3986), and the decisions taken
    on the unit's JSON replies: the pedalboard list of the current bank,
    the preset list of the current pedalboard, and the current pedalboard
    and preset. The HTTP fetch is an oracle: each function receives the
    parsed reply, or None when the request or the parse failed. */
module Utilities {
  import opened Machine
  import opened Json

  /** A pedalboard of the current bank: its title and its bundle path. */
  datatype Pedalboard = Pedalboard(title: string, bundle: string)

  // ---------------------------------------------------------------------
  // Percent-encoding

  /** The unreserved set: ASCII letters and digits (what `isalnum` accepts
      in the C locale) and `- _ . ~`. */
  predicate Unreserved(b: byte)
  {
    || ('0' as int <= b <= '9' as int)
    || ('A' as int <= b <= 'Z' as int)
    || ('a' as int <= b <= 'z' as int)
    || b == '-' as int || b == '_' as int || b == '.' as int || b == '~' as int
  }

  predicate UnreservedChar(c: char)
  {
    c as int < 256 && Unreserved(c as int)
  }

  /** An upper-case hexadecimal digit. */
  function HexDigit(d: int): (c: char)
    requires 0 <= d < 16
  {
    if d < 10 then ('0' as int + d) as char else ('A' as int + d - 10) as char
  }

  predicate IsHexDigit(c: char)
  {
    ('0' <= c <= '9') || ('A' <= c <= 'F')
  }

  function HexValue(c: char): (d: int)
    requires IsHexDigit(c)
    ensures 0 <= d < 16 && HexDigit(d) == c
  {
    if c <= '9' then c as int - '0' as int else c as int - 'A' as int + 10
  }

  /** One input byte, encoded: itself if unreserved, else `%` and two
      upper-case hex digits of its unsigned value. */
  function EncodeByte(b: byte): string
  {
    if Unreserved(b) then [b as char] else ['%', HexDigit(b / 16), HexDigit(b % 16)]
  }

  /** Percent-encoding: unreserved bytes pass through, every other byte
      becomes `%` and two upper-case hex digits. */
  function UrlEncode(s: seq<byte>): (r: string)
    ensures |r| == |s| + 2 * EscapedCount(s)
    ensures s == [] <==> r == []
  {
    if s == [] then [] else EncodeByte(s[0]) + UrlEncode(s[1..])
  }

  /** Number of bytes that need escaping. */
  function EscapedCount(s: seq<byte>): nat
  {
    if s == [] then 0 else (if Unreserved(s[0]) then 0 else 1) + EscapedCount(s[1..])
  }

  /** The characters an encoded string may contain. */
  predicate EncodedChar(c: char)
  {
    UnreservedChar(c) || c == '%' || IsHexDigit(c)
  }

  /** The partner of UrlEncode: percent-decoding that accepts exactly the
      alphabet the encoder produces. */
  function UrlDecode(t: string): Option<seq<byte>>
    decreases |t|
  {
    if t == [] then Some([])
    else if t[0] == '%' then
      if |t| >= 3 && IsHexDigit(t[1]) && IsHexDigit(t[2]) then
        match UrlDecode(t[3..])
        case None => None
        case Some(rest) => Some([HexValue(t[1]) * 16 + HexValue(t[2])] + rest)
      else None
    else if UnreservedChar(t[0]) then
      match UrlDecode(t[1..])
      case None => None
      case Some(rest) => Some([t[0] as int] + rest)
    else None
  }

  lemma HexDigitValue(d: int)
    requires 0 <= d < 16
    ensures IsHexDigit(HexDigit(d)) && HexValue(HexDigit(d)) == d
  {
  }

  /** Decoding an encoded string gives the original bytes back. */
  lemma {:induction false} UrlRoundTrip(s: seq<byte>)
    ensures UrlDecode(UrlEncode(s)) == Some(s)
  {
    if s != [] {
      UrlRoundTrip(s[1..]);
      var b := s[0];
      var t := UrlEncode(s);
      assert t == EncodeByte(b) + UrlEncode(s[1..]);
      if Unreserved(b) {
        assert t[0] == b as char && t[0] != '%';
        assert t[1..] == UrlEncode(s[1..]);
      } else {
        HexDigitValue(b / 16);
        HexDigitValue(b % 16);
        assert t[0] == '%' && t[1] == HexDigit(b / 16) && t[2] == HexDigit(b % 16);
        assert t[3..] == UrlEncode(s[1..]);
      }
      assert s == [s[0]] + s[1..];
    }
  }

  /** The output uses only unreserved characters, `%` and `0-9A-F`. */
  lemma {:induction false} UrlEncodeAlphabet(s: seq<byte>)
    ensures forall k | 0 <= k < |UrlEncode(s)| :: EncodedChar(UrlEncode(s)[k])
  {
    if s != [] {
      UrlEncodeAlphabet(s[1..]);
      var head := EncodeByte(s[0]);
      var t := UrlEncode(s);
      assert t == head + UrlEncode(s[1..]);
      if !Unreserved(s[0]) {
        HexDigitValue(s[0] / 16);
        HexDigitValue(s[0] % 16);
      }
      forall k | 0 <= k < |t|
        ensures EncodedChar(t[k])
      {
        if k >= |head| {
          assert t[k] == UrlEncode(s[1..])[k - |head|];
        }
      }
    }
  }

  /** Unreserved input passes through unchanged. */
  lemma {:induction false} UrlEncodeKeepsUnreserved(s: seq<byte>)
    requires forall k | 0 <= k < |s| :: Unreserved(s[k])
    ensures UrlEncode(s) == seq(|s|, k requires 0 <= k < |s| => s[k] as char)
  {
    if s != [] {
      UrlEncodeKeepsUnreserved(s[1..]);
    }
  }

  // ---------------------------------------------------------------------
  // The pedalboard list of the current bank

  /** An element of the `pedalboards` array the client accepts. */
  predicate IsPedalboardEntry(j: Json)
  {
    j.JObject? && HasString(j.fields, "title") && HasString(j.fields, "bundle")
  }

  function EntryPedalboard(j: Json): Pedalboard
    requires IsPedalboardEntry(j)
  {
    Pedalboard(j.fields["title"].s, j.fields["bundle"].s)
  }

  /** All-or-nothing conversion of the array: one bad element rejects it. */
  function ParsePedalboards(items: seq<Json>): (r: Option<seq<Pedalboard>>)
    ensures r.Some? <==> forall k | 0 <= k < |items| :: IsPedalboardEntry(items[k])
    ensures r.Some? ==> |r.value| == |items|
    ensures r.Some? ==> forall k | 0 <= k < |items| :: r.value[k] == EntryPedalboard(items[k])
  {
    if items == [] then Some([])
    else if !IsPedalboardEntry(items[0]) then None
    else
      match ParsePedalboards(items[1..])
      case None => None
      case Some(rest) => Some([EntryPedalboard(items[0])] + rest)
  }

  /** A reply the client accepts as a non-empty bank. */
  predicate IsBankReply(j: Json)
  {
    && j.JObject? && "pedalboards" in j.fields && j.fields["pedalboards"].JArray?
    && forall k | 0 <= k < |j.fields["pedalboards"].items| :: IsPedalboardEntry(j.fields["pedalboards"].items[k])
  }

  /** getPedalboardList: a null reply is an empty bank; any failure empties
      the list; otherwise the list is the array's elements in order. */
  function GetPedalboardList(reply: Option<Json>): (r: (bool, seq<Pedalboard>))
    ensures r.0 <==> reply == Some(JNull) || (reply.Some? && IsBankReply(reply.value))
    ensures !r.0 || reply == Some(JNull) ==> r.1 == []
    ensures r.0 && reply != Some(JNull) ==>
              var items := reply.value.fields["pedalboards"].items;
              |r.1| == |items| && forall k | 0 <= k < |items| :: r.1[k] == EntryPedalboard(items[k])
  {
    match reply
    case None => (false, [])
    case Some(root) =>
      if root.JNull? then (true, [])
      else if !root.JObject? then (false, [])
      else if "pedalboards" !in root.fields then (false, [])
      else if !root.fields["pedalboards"].JArray? then (false, [])
      else
        match ParsePedalboards(root.fields["pedalboards"].items)
        case None => (false, [])
        case Some(list) => (true, list)
  }

  function PedalboardJson(p: Pedalboard): Json
  {
    JObject(map["title" := JString(p.title), "bundle" := JString(p.bundle)])
  }

  /** The reply the unit sends for a bank holding the given pedalboards. */
  function BankJson(list: seq<Pedalboard>): Json
  {
    JObject(map["pedalboards" := JArray(seq(|list|, k requires 0 <= k < |list| => PedalboardJson(list[k])))])
  }

  /** Reading the reply for a bank gives back that bank. */
  lemma BankRoundTrip(list: seq<Pedalboard>)
    ensures GetPedalboardList(Some(BankJson(list))) == (true, list)
  {
    var items := BankJson(list).fields["pedalboards"].items;
    assert forall k | 0 <= k < |items| :: IsPedalboardEntry(items[k]) && EntryPedalboard(items[k]) == list[k];
    var r := GetPedalboardList(Some(BankJson(list)));
    assert r.0;
    assert |r.1| == |list| && forall k | 0 <= k < |list| :: r.1[k] == list[k];
    assert r.1 == list;
  }

  // ---------------------------------------------------------------------
  // The preset list of the current pedalboard

  const MAX_PRESETS: nat := 999

  function DecimalDigit(d: int): char
    requires 0 <= d < 10
  {
    ('0' as int + d) as char
  }

  /** `std::to_string` of a non-negative number. */
  function Decimal(n: nat): (s: string)
    ensures |s| >= 1
    ensures forall k | 0 <= k < |s| :: '0' <= s[k] <= '9'
  {
    if n < 10 then [DecimalDigit(n)] else Decimal(n / 10) + [DecimalDigit(n % 10)]
  }

  function ParseDecimal(s: string): nat
    requires forall k | 0 <= k < |s| :: '0' <= s[k] <= '9'
  {
    if s == [] then 0 else ParseDecimal(s[..|s| - 1]) * 10 + (s[|s| - 1] as int - '0' as int)
  }

  lemma {:induction false} DecimalRoundTrip(n: nat)
    ensures ParseDecimal(Decimal(n)) == n
  {
    if n >= 10 {
      DecimalRoundTrip(n / 10);
      var s := Decimal(n);
      assert s[..|s| - 1] == Decimal(n / 10);
    }
  }

  /** Distinct preset numbers give distinct keys. */
  lemma DecimalInjective(m: nat, n: nat)
    requires Decimal(m) == Decimal(n)
    ensures m == n
  {
    DecimalRoundTrip(m);
    DecimalRoundTrip(n);
  }

  function PresetKey(i: nat): string
  {
    Decimal(i)
  }

  /** The contiguous run of string presets under keys "i", "i+1", ...,
      stopping at the first missing or non-string key or at 999. */
  function ScanPresets(fields: map<string, Json>, i: nat): (r: seq<string>)
    requires i <= MAX_PRESETS
    ensures |r| <= MAX_PRESETS - i
    ensures forall j | i <= j < i + |r| :: HasString(fields, PresetKey(j)) && fields[PresetKey(j)].s == r[j - i]
    ensures i + |r| < MAX_PRESETS ==> !HasString(fields, PresetKey(i + |r|))
    decreases MAX_PRESETS - i
  {
    if i == MAX_PRESETS || !HasString(fields, PresetKey(i)) then []
    else [fields[PresetKey(i)].s] + ScanPresets(fields, i + 1)
  }

  /** getPresetList: the presets under keys "0", "1", ... of an object
      reply; an empty list and failure for anything else. */
  function GetPresetList(reply: Option<Json>): (r: (bool, seq<string>))
    ensures r.0 <==> reply.Some? && reply.value.JObject?
    ensures !r.0 ==> r.1 == []
    ensures |r.1| <= MAX_PRESETS
    ensures r.0 ==> forall j | 0 <= j < |r.1| ::
              HasString(reply.value.fields, PresetKey(j)) && reply.value.fields[PresetKey(j)].s == r.1[j]
    ensures r.0 && |r.1| < MAX_PRESETS ==> !HasString(reply.value.fields, PresetKey(|r.1|))
  {
    match reply
    case None => (false, [])
    case Some(root) =>
      if !root.JObject? then (false, [])
      else (true, ScanPresets(root.fields, 0))
  }

  /** The reply the unit sends for the given preset names. */
  function PresetFields(names: seq<string>): map<string, Json>
  {
    if names == [] then map[]
    else PresetFields(names[..|names| - 1])[PresetKey(|names| - 1) := JString(names[|names| - 1])]
  }

  /** The reply holds preset j under key "j" exactly for j below the
      number of names. */
  lemma {:induction false} PresetFieldsLookup(names: seq<string>, j: nat)
    ensures PresetKey(j) in PresetFields(names) <==> j < |names|
    ensures j < |names| ==> PresetFields(names)[PresetKey(j)] == JString(names[j])
  {
    if names != [] {
      var n := |names| - 1;
      PresetFieldsLookup(names[..n], j);
      if PresetKey(j) == PresetKey(n) {
        DecimalInjective(j, n);
      }
    }
  }

  /** Scanning the reply stops exactly after the last name. */
  lemma ScanPresetCount(names: seq<string>)
    requires |names| <= MAX_PRESETS
    ensures |ScanPresets(PresetFields(names), 0)| == |names|
  {
    var m := PresetFields(names);
    var n := |ScanPresets(m, 0)|;
    if n > |names| {
      PresetFieldsLookup(names, |names|);
    } else if n < |names| {
      PresetFieldsLookup(names, n);
    }
  }

  /** Scanning the reply for up to 999 presets finds exactly those presets. */
  lemma ScanPresetFields(names: seq<string>)
    requires |names| <= MAX_PRESETS
    ensures ScanPresets(PresetFields(names), 0) == names
  {
    var m := PresetFields(names);
    var r := ScanPresets(m, 0);
    ScanPresetCount(names);
    forall j | 0 <= j < |r|
      ensures r[j] == names[j]
    {
      PresetFieldsLookup(names, j);
    }
    assert |r| == |names|;
  }

  /** Reading the reply for up to 999 presets gives back those presets. */
  lemma PresetRoundTrip(names: seq<string>)
    requires |names| <= MAX_PRESETS
    ensures GetPresetList(Some(JObject(PresetFields(names)))) == (true, names)
  {
    ScanPresetFields(names);
  }

  // ---------------------------------------------------------------------
  // The current pedalboard and preset

  /** The index of the first pedalboard whose bundle is `path`, or -1. */
  function FirstMatch(list: seq<Pedalboard>, path: string): (r: int)
    ensures -1 <= r < |list|
    ensures r == -1 <==> forall k | 0 <= k < |list| :: list[k].bundle != path
    ensures r >= 0 ==> list[r].bundle == path && forall k | 0 <= k < r :: list[k].bundle != path
  {
    if list == [] then -1
    else if list[0].bundle == path then 0
    else
      var r := FirstMatch(list[1..], path);
      if r == -1 then -1 else r + 1
  }

  /** The page offset rule: an offset at or past the end of the list moves
      to the page of the current pedalboard, or to 0 when there is none. */
  function BoundOffset(offset: nat, size: nat, current: int): (r: nat)
    ensures offset < size ==> r == offset
    ensures offset >= size && current < 0 ==> r == 0
    ensures offset >= size && current >= 0 ==> r <= current < r + 5 && r % 5 == 0
  {
    if offset >= size then (if current < 0 then 0 else (current / 5) * 5) else offset
  }

  /** Bounding keeps offsets on page boundaries, lands inside the list
      whenever the current pedalboard is an index of it (or the list is
      empty), and a second bounding changes nothing. */
  lemma BoundOffsetProperties(offset: nat, size: nat, current: int)
    requires -1 <= current < size
    ensures offset % 5 == 0 ==> BoundOffset(offset, size, current) % 5 == 0
    ensures BoundOffset(offset, size, current) < size || (current == -1 && BoundOffset(offset, size, current) == 0)
    ensures BoundOffset(BoundOffset(offset, size, current), size, current) == BoundOffset(offset, size, current)
  {
  }

  /** Outcome of getCurrentPedalboardAndPreset. */
  datatype Current = Current(ok: bool, pedalboard: int, preset: int, offset: nat)

  predicate IsCurrentReply(j: Json)
  {
    j.JObject? && HasString(j.fields, "path") && "preset" in j.fields && j.fields["preset"].JInteger?
  }

  /** getCurrentPedalboardAndPreset: every failure reports pedalboard and
      preset -1 and keeps the offset; success matches the reported bundle
      path against the list, converts the preset to `int` and bounds the
      offset. */
  function GetCurrentPedalboardAndPreset(reply: Option<Json>, list: seq<Pedalboard>, offset: nat): (r: Current)
    ensures r.ok <==> reply.Some? && IsCurrentReply(reply.value)
    ensures !r.ok ==> r == Current(false, -1, -1, offset)
    ensures r.ok ==> var path := reply.value.fields["path"].s;
              && -1 <= r.pedalboard < |list|
              && (r.pedalboard == -1 <==> forall k | 0 <= k < |list| :: list[k].bundle != path)
              && (r.pedalboard >= 0 ==> list[r.pedalboard].bundle == path
                                        && forall k | 0 <= k < r.pedalboard :: list[k].bundle != path)
              && r.preset == ToI32(reply.value.fields["preset"].i)
              && r.offset == BoundOffset(offset, |list|, r.pedalboard)
  {
    match reply
    case None => Current(false, -1, -1, offset)
    case Some(root) =>
      if !IsCurrentReply(root) then Current(false, -1, -1, offset)
      else
        var pedalboard := FirstMatch(list, root.fields["path"].s);
        Current(true, pedalboard, ToI32(root.fields["preset"].i), BoundOffset(offset, |list|, pedalboard))
  }

  /** getCurrentBPM: a number reply (integers read as reals), else failure. */
  function GetCurrentBpm(reply: Option<Json>): (r: Option<real>)
    ensures r.Some? <==> reply.Some? && (reply.value.JReal? || reply.value.JInteger?)
    ensures r.Some? && reply.value.JReal? ==> r.value == reply.value.r
    ensures r.Some? && reply.value.JInteger? ==> r.value == reply.value.i as real
  {
    match reply
    case Some(JReal(x)) => Some(x)
    case Some(JInteger(i)) => Some(i as real)
    case _ => None
  }
}
