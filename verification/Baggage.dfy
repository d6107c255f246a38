/** The allow-listed baggage of a trace context: reading it from a header and printing it again. */
module Baggage {
  import opened Sequences
  import opened TraceContext

  // ---------------------------------------------------------------- baggage octets, percent encoding

  /** A baggage-octet (W3C Baggage, section 3): printable, and none of space, quote, comma, semicolon, backslash. */
  predicate Octet(c: char) {
    '!' <= c <= '~' && c != '"' && c != ',' && c != ';' && c != '\\'
  }

  predicate GoodValue(v: string) {
    1 <= |v| <= BAGGAGE_VALUE_MAX_LENGTH && All(v, Octet)
  }

  /** The characters `encodeURIComponent` leaves alone. */
  predicate Unreserved(c: char) {
    UpperCase(c) || LowerCase(c) || Digit(c) || c in "-_.!~*'()"
  }

  function HexDigit(n: int): char
    requires 0 <= n < 16
  {
    if n < 10 then '0' + n as char else 'A' + (n - 10) as char
  }

  function HexValue(c: char): int {
    if Digit(c) then (c - '0') as int
    else if 'A' <= c <= 'F' then (c - 'A') as int + 10
    else if 'a' <= c <= 'f' then (c - 'a') as int + 10
    else -1
  }

  function EncodeChar(c: char): string
    requires Octet(c)
  {
    if Unreserved(c) then [c] else ['%', HexDigit(c as int / 16), HexDigit(c as int % 16)]
  }

  /** `encodeURIComponent` on baggage octets. */
  function Encode(v: string): string
    requires All(v, Octet)
  {
    if v == [] then [] else EncodeChar(v[0]) + Encode(v[1..])
  }

  /** `decodeURIComponent` as far as `safeBaggage` can tell: a byte from 0x80 up either makes the
      sequence malformed or yields a character that is no baggage-octet, and both discard the value. */
  function Decode(s: string): Option<string> {
    if s == [] then Some([])
    else if s[0] != '%' then Prefixed(s[0], Decode(s[1..]))
    else if |s| < 3 || HexValue(s[1]) < 0 || HexValue(s[2]) < 0 || HexValue(s[1]) >= 8 then None
    else Prefixed((HexValue(s[1]) * 16 + HexValue(s[2])) as char, Decode(s[3..]))
  }

  function Prefixed(c: char, rest: Option<string>): Option<string> {
    if rest.None? then None else Some([c] + rest.value)
  }

  lemma EncodeCharShape(c: char, rest: string)
    requires Octet(c)
    ensures var e := EncodeChar(c);
            && 1 <= |e| <= 3
            && (forall i :: 0 <= i < |e| ==> Octet(e[i]) && e[i] != ',')
            && Decode(e + rest) == Prefixed(c, Decode(rest))
  {
    var e := EncodeChar(c);
    if Unreserved(c) {
      assert (e + rest)[1..] == rest;
    } else {
      assert HexValue(HexDigit(c as int / 16)) == c as int / 16;
      assert HexValue(HexDigit(c as int % 16)) == c as int % 16;
      assert (e + rest)[3..] == rest;
    }
  }

  /** Decoding undoes encoding; the encoded text is made of baggage-octets and is at most three times as long. */
  lemma {:induction false} DecodeOfEncode(v: string)
    requires All(v, Octet)
    ensures Decode(Encode(v)) == Some(v)
    ensures All(Encode(v), Octet) && ',' !in Encode(v)
    ensures |v| <= |Encode(v)| <= 3 * |v|
  {
    if v != [] {
      DecodeOfEncode(v[1..]);
      EncodeCharShape(v[0], Encode(v[1..]));
      assert [v[0]] + v[1..] == v;
    }
  }

  // ---------------------------------------------------------------- reading

  /** The allow list. */
  datatype Name = CorrelationId | Deployment

  function Text(n: Name): string {
    match n
    case CorrelationId => "correlation-id"
    case Deployment => "deployment"
  }

  function Allowed(name: string): Option<Name> {
    if name == "correlation-id" then Some(CorrelationId)
    else if name == "deployment" then Some(Deployment)
    else None
  }

  type Items = map<Name, string>

  /** The value of one list item, if it is an acceptable entry of the allow list. */
  function ReadItem(item: string): Option<(Name, string)> {
    var separator := IndexOf(item, '=');
    if separator < 1 then None
    else
      var name := Allowed(Lower(Trim(item[..separator])));
      var encoded := item[separator + 1..];
      if name.None? || !GoodValue(encoded) then None
      else
        var decoded := Decode(encoded);
        if decoded.None? || !GoodValue(decoded.value) then None else Some((name.value, decoded.value))
  }

  /** The first acceptable item of a name counts. */
  function ReadItems(items: seq<string>): Items {
    if items == [] then map[]
    else AddItem(ReadItems(items[..|items| - 1]), items[|items| - 1])
  }

  function AddItem(found: Items, item: string): Items {
    var entry := ReadItem(item);
    if entry.None? || entry.value.0 in found then found else found[entry.value.0 := entry.value.1]
  }

  function SafeBaggage(value: Option<string>): Items {
    if value.None? || |value.value| > BAGGAGE_MAX_LENGTH then map[]
    else
      var items := Split(value.value, ',');
      if |items| > BAGGAGE_MAX_ITEMS then map[] else ReadItems(items)
  }

  lemma NextItem(items: seq<string>, i: nat)
    requires i < |items|
    ensures ReadItems(items[..i + 1]) == AddItem(ReadItems(items[..i]), items[i])
  {
    assert items[..i + 1][..i] == items[..i];
  }

  /** `safeBaggage` as written: a loop that skips every item it cannot use. */
  method ParseBaggage(value: Option<string>) returns (result: Items)
    ensures result == SafeBaggage(value)
  {
    result := map[];
    if value.None? || |value.value| > BAGGAGE_MAX_LENGTH {
      return;
    }
    var items := Split(value.value, ',');
    if |items| > BAGGAGE_MAX_ITEMS {
      return;
    }
    hide ReadItems, Allowed, Lower, Trim, IndexOf, Decode, All;
    NoItems();
    for i := 0 to |items|
      invariant result == ReadItems(items[..i])
    {
      var item := items[i];
      NextItem(items, i);
      var separator := IndexOf(item, '=');
      if separator < 1 { continue; }
      var name := Allowed(Lower(Trim(item[..separator])));
      if name.None? || name.value in result { continue; }
      var encoded := item[separator + 1..];
      if |encoded| < 1 || |encoded| > BAGGAGE_VALUE_MAX_LENGTH || !All(encoded, Octet) { continue; }
      var decoded := Decode(encoded);
      if decoded.None? { continue; }
      if |decoded.value| < 1 || |decoded.value| > BAGGAGE_VALUE_MAX_LENGTH || !All(decoded.value, Octet) { continue; }
      result := result[name.value := decoded.value];
    }
    assert items[..|items|] == items;
  }

  ghost predicate GoodItems(b: Items) {
    forall n :: n in b ==> GoodValue(b[n])
  }

  lemma {:induction false} ReadItemsAreGood(items: seq<string>)
    ensures GoodItems(ReadItems(items))
  {
    if items != [] {
      ReadItemsAreGood(items[..|items| - 1]);
    }
  }

  // ---------------------------------------------------------------- printing

  function PrintItem(n: Name, v: string): string
    requires All(v, Octet)
  {
    Text(n) + "=" + Encode(v)
  }

  /** The names in the order `localeCompare` gives them. */
  const SORTED: seq<Name> := [CorrelationId, Deployment]

  function PrintList(b: Items, names: seq<Name>): (r: seq<string>)
    requires GoodItems(b)
    ensures |r| <= |names|
  {
    if names == [] then []
    else
      var n := names[|names| - 1];
      PrintList(b, names[..|names| - 1]) + if n in b then [PrintItem(n, b[n])] else []
  }

  function PrintItems(b: Items): seq<string>
    requires GoodItems(b)
  {
    PrintList(b, SORTED)
  }

  function PrintBaggage(b: Items): Option<string>
    requires GoodItems(b)
  {
    var printed := Intercalate(PrintItems(b), ',');
    if printed == [] then None else Some(printed)
  }

  /** The encoded value still fits the limit on a single value. */
  predicate Fits(v: string)
    requires All(v, Octet)
  {
    |Encode(v)| <= BAGGAGE_VALUE_MAX_LENGTH
  }

  /** What is left of `b` after the next hop: the entries that fit, unless all of it is too long together. */
  function Surviving(b: Items): Items
    requires GoodItems(b)
  {
    if |Intercalate(PrintItems(b), ',')| > BAGGAGE_MAX_LENGTH then map[]
    else Fitting(b)
  }

  lemma NameRoundTrip(n: Name)
    ensures Allowed(Lower(Trim(Text(n)))) == Some(n)
    ensures '=' !in Text(n) && ',' !in Text(n)
  {
    hide Trim, Lower, Allowed;
    var t := Text(n);
    assert Trim(t) == t;
    assert forall i :: 0 <= i < |t| ==> !UpperCase(t[i]) && t[i] != '=' && t[i] != ',';
    LowerCased(t);
    NameIsAllowed(n);
    hide Text;
    assert Allowed(Lower(Trim(t))) == Some(n) && '=' !in t && ',' !in t;
  }

  lemma NameIsAllowed(n: Name)
    ensures Allowed(Text(n)) == Some(n)
  {
  }

  lemma LowerCased(t: string)
    requires forall i :: 0 <= i < |t| ==> !UpperCase(t[i])
    ensures Lower(t) == t
  {
  }

  lemma ReadRawItem(n: Name, encoded: string)
    requires ',' !in encoded
    ensures var item, decoded := Text(n) + ['='] + encoded, Decode(encoded);
            && ',' !in item
            && ReadItem(item) == if GoodValue(encoded) && decoded.Some? && GoodValue(decoded.value)
                                 then Some((n, decoded.value)) else None
  {
    NameRoundTrip(n);
    IndexOfFirst(Text(n), encoded, '=');
    hide Decode, Lower, Trim, Allowed, IndexOf, GoodValue;
    assert Text(n) != [];
    hide Text;
    var item := Text(n) + ['='] + encoded;
    assert item[..|Text(n)|] == Text(n) && item[|Text(n)| + 1..] == encoded;
  }

  lemma ReadPrintedItem(n: Name, v: string)
    requires GoodValue(v)
    ensures ReadItem(PrintItem(n, v)) == if Fits(v) then Some((n, v)) else None
    ensures ',' !in PrintItem(n, v) && PrintItem(n, v) != []
    ensures |PrintItem(n, v)| == |Text(n)| + 1 + |Encode(v)|
  {
    DecodeOfEncode(v);
    ReadRawItem(n, Encode(v));
    hide Encode, Decode, ReadItem, Text;
  }

  function Fitting(b: Items): Items
    requires GoodItems(b)
  {
    map n | n in b && Fits(b[n]) :: b[n]
  }

  lemma AddPrintedItem(found: Items, n: Name, v: string)
    requires GoodValue(v) && n !in found
    ensures AddItem(found, PrintItem(n, v)) == if Fits(v) then found[n := v] else found
  {
    ReadPrintedItem(n, v);
  }

  /** `found` holds exactly the entries of `b` under `names` whose values fit. */
  ghost predicate Matches(found: Items, b: Items, names: seq<Name>)
    requires GoodItems(b)
  {
    && (forall n :: n in found <==> n in names && n in b && Fits(b[n]))
    && (forall n :: n in found ==> found[n] == b[n])
  }

  lemma {:induction false} ReadPrintedList(b: Items, names: seq<Name>)
    requires GoodItems(b) && forall i, j :: 0 <= i < j < |names| ==> names[i] != names[j]
    ensures Matches(ReadItems(PrintList(b, names)), b, names)
  {
    if names != [] {
      var init, n := names[..|names| - 1], names[|names| - 1];
      ReadPrintedList(b, init);
      assert names == init + [n] && n !in init;
      var before := PrintList(b, init);
      hide GoodValue, Fits, PrintItem, AddItem, Matches;
      MatchesOneMore(ReadItems(before), b, init, n);
      if n in b {
        var item := PrintItem(n, b[n]);
        AddPrintedItem(ReadItems(before), n, b[n]);
        assert (before + [item])[..|before|] == before;
      } else {
        assert PrintList(b, names) == before;
      }
    }
  }

  lemma MatchesOneMore(found: Items, b: Items, names: seq<Name>, n: Name)
    requires GoodItems(b) && n !in names && Matches(found, b, names)
    ensures n !in found
    ensures Matches(if n in b && Fits(b[n]) then found[n := b[n]] else found, b, names + [n])
  {
    hide GoodValue, Fits;
    assert forall m :: m in names + [n] <==> m == n || m in names;
  }

  lemma {:induction false} PrintedListShape(b: Items, names: seq<Name>)
    requires GoodItems(b)
    ensures forall i :: 0 <= i < |PrintList(b, names)| ==>
              ',' !in PrintList(b, names)[i] && PrintList(b, names)[i] != []
  {
    if names != [] {
      var n := names[|names| - 1];
      PrintedListShape(b, names[..|names| - 1]);
      if n in b { ReadPrintedItem(n, b[n]); }
    }
  }

  lemma ReadPrintedItems(b: Items)
    requires GoodItems(b)
    ensures ReadItems(PrintItems(b)) == Fitting(b)
    ensures forall i :: 0 <= i < |PrintItems(b)| ==> ',' !in PrintItems(b)[i] && PrintItems(b)[i] != []
  {
    ReadPrintedList(b, SORTED);
    PrintedListShape(b, SORTED);
    hide Matches, ReadItems, PrintList, Fitting, GoodValue;
    MatchesSorted(ReadItems(PrintItems(b)), b);
  }

  lemma MatchesSorted(found: Items, b: Items)
    requires GoodItems(b) && Matches(found, b, SORTED)
    ensures found == Fitting(b)
  {
    hide GoodValue, Fits;
    assert SORTED[0] == CorrelationId && SORTED[1] == Deployment;
    forall n | n in b ensures n in SORTED {
      match n
      case CorrelationId =>
      case Deployment =>
    }
  }

  lemma NoItems()
    ensures ReadItems([]) == map[]
  {
  }

  /** Printing and reading again keeps exactly the surviving entries, with their values. */
  lemma BaggageRoundTrip(b: Items)
    requires GoodItems(b)
    ensures SafeBaggage(PrintBaggage(b)) == Surviving(b)
  {
    ReadPrintedItems(b);
    var items := PrintItems(b);
    NoItems();
    hide ReadItems, PrintItem, Fits, GoodValue;
    if items != [] {
      hide PrintItems;
      SplitOfJoin(items, ',');
      JoinEnds(items);
    }
  }

  /** Nothing is lost exactly when every encoded value fits. */
  lemma SurvivesWholeIffFits(b: Items)
    requires GoodItems(b)
    ensures Surviving(b) == b <==> forall n :: n in b ==> Fits(b[n])
    ensures forall n :: n in Surviving(b) ==> n in b && Surviving(b)[n] == b[n]
    ensures GoodItems(Surviving(b)) && Surviving(Surviving(b)) == Surviving(b)
  {
    if forall n :: n in b ==> Fits(b[n]) { AllFitIsShort(b); }
    var s := Surviving(b);
    AllFitIsShort(s);
    hide PrintItems, Fits, GoodValue;
    assert Fitting(s) == s;
    if forall n :: n in b ==> Fits(b[n]) {
      assert Fitting(b) == b;
    } else {
      var n :| n in b && !Fits(b[n]);
      assert n !in s;
    }
  }

  lemma AllFitIsShort(b: Items)
    requires GoodItems(b) && forall n :: n in b ==> Fits(b[n])
    ensures |Intercalate(PrintItems(b), ',')| <= BAGGAGE_MAX_LENGTH
  {
    if CorrelationId in b { ReadPrintedItem(CorrelationId, b[CorrelationId]); }
    if Deployment in b { ReadPrintedItem(Deployment, b[Deployment]); }
    hide PrintItem, GoodValue, Encode;
    var c, d := CorrelationId, Deployment;
    assert SORTED[..1] == [c] && SORTED[..1][..0] == [];
    assert PrintList(b, []) == [];
    assert PrintList(b, SORTED[..1]) == if c in b then [PrintItem(c, b[c])] else [];
    assert PrintItems(b) == PrintList(b, SORTED[..1]) + if d in b then [PrintItem(d, b[d])] else [];
  }
}
