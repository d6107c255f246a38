/** The grammars of the trace headers, stated on characters and concatenations, and what the parsers
    and printers mean in terms of them: W3C Trace Context (sections 3.2.2 and 3.3.1), W3C Baggage
    (section 3) and percent encoding (RFC 3986, section 2.1). */
module TraceGrammar {
  import opened Sequences
  import opened TraceContext
  import opened Baggage

  // ---------------------------------------------------------------- traceparent

  ghost predicate HexDigits(v: string, lo: nat, hi: nat)
    requires lo <= hi <= |v|
  {
    forall i :: lo <= i < hi ==> v[i] in "0123456789abcdef"
  }

  ghost predicate NotOnlyZeros(v: string, lo: nat, hi: nat)
    requires lo <= hi <= |v|
  {
    exists i :: lo <= i < hi && v[i] != '0'
  }

  /** The header, character by character. */
  ghost predicate IsTraceparent(v: string) {
    && |v| == 55
    && v[0] == '0' && v[1] == '0' && v[2] == '-' && v[35] == '-' && v[52] == '-'
    && HexDigits(v, 3, 35) && HexDigits(v, 36, 52) && HexDigits(v, 53, 55)
    && NotOnlyZeros(v, 3, 35) && NotOnlyZeros(v, 36, 52)
  }

  lemma TraceparentMeans(v: string)
    ensures ValidTraceparent(Some(v)).Some? <==> IsTraceparent(v)
    ensures IsTraceparent(v) ==> ValidTraceparent(Some(v)) == Some(Parent(v[3..35], v[36..52], v[53..55]))
  {
    hide LowerHex, All, Zeros, HexDigits, NotOnlyZeros;
    if |v| == 55 {
      NotAllZeros(v, 3, 35);
      NotAllZeros(v, 36, 52);
      HexPart(v, 3, 35);
      HexPart(v, 36, 52);
      HexPart(v, 53, 55);
      assert v[..3] == "00-" <==> v[0] == '0' && v[1] == '0' && v[2] == '-';
    }
    assert ValidTraceparent(Some(v)).Some? <==> IsTraceparent(v);
  }

  lemma NotAllZeros(v: string, lo: nat, hi: nat)
    requires lo <= hi <= |v|
    ensures v[lo..hi] != Zeros(hi - lo) <==> NotOnlyZeros(v, lo, hi)
  {
    if NotOnlyZeros(v, lo, hi) {
      var i :| lo <= i < hi && v[i] != '0';
      assert v[lo..hi][i - lo] != Zeros(hi - lo)[i - lo];
    } else {
      assert v[lo..hi] == Zeros(hi - lo);
    }
  }

  lemma HexPart(v: string, lo: nat, hi: nat)
    requires lo <= hi <= |v|
    ensures All(v[lo..hi], LowerHex) <==> HexDigits(v, lo, hi)
  {
    hide LowerHex;
    forall i | lo <= i < hi ensures LowerHex(v[i]) <==> v[i] in "0123456789abcdef" {
      HexCharacter(v[i]);
    }
    assert forall i :: lo <= i < hi ==> v[lo..hi][i - lo] == v[i];
    assert All(v[lo..hi], LowerHex) <==> HexDigits(v, lo, hi);
  }

  lemma HexCharacter(c: char)
    ensures LowerHex(c) <==> c in "0123456789abcdef"
  {
    if LowerHex(c) {
      var i := if c <= '9' then (c - '0') as int else (c - 'a') as int + 10;
      assert "0123456789abcdef"[i] == c;
    }
  }

  // ---------------------------------------------------------------- white space around a part

  /** The white space of `trim` among the characters of a header. */
  predicate Blank(c: char) {
    c == ' ' || c == '\t' || c == '\n' || c == '\U{000B}' || c == '\U{000C}' || c == '\r' || c == '\U{00A0}'
  }

  ghost predicate AllBlank(s: string) {
    forall i :: 0 <= i < |s| ==> Blank(s[i])
  }

  ghost predicate Around(raw: string, before: string, core: string, after: string) {
    && raw == before + core + after && AllBlank(before) && AllBlank(after)
    && (core != [] ==> !Blank(core[0]) && !Blank(core[|core| - 1]))
  }

  /** `raw` is `core` with white space around it. */
  ghost predicate Padded(raw: string, core: string) {
    exists before, after :: Around(raw, before, core, after)
  }

  lemma {:induction false} TrimStartCuts(s: string) returns (before: string, rest: string)
    ensures rest == TrimStart(s)
    ensures s == before + rest && AllBlank(before) && (rest != [] ==> !Blank(rest[0]))
  {
    before, rest := [], s;
    if s != [] && Space(s[0]) {
      before, rest := TrimStartCuts(s[1..]);
      assert s == [s[0]] + s[1..];
      before := [s[0]] + before;
    }
  }

  lemma {:induction false} TrimEndCuts(s: string) returns (rest: string, after: string)
    ensures rest == TrimEnd(s)
    ensures s == rest + after && AllBlank(after) && (rest != [] ==> !Blank(rest[|rest| - 1]))
  {
    rest, after := s, [];
    if s != [] && Space(s[|s| - 1]) {
      rest, after := TrimEndCuts(s[..|s| - 1]);
      assert s == s[..|s| - 1] + [s[|s| - 1]];
      after := after + [s[|s| - 1]];
    }
  }

  lemma TrimIsPadded(raw: string)
    ensures Padded(raw, Trim(raw))
  {
    var before, rest := TrimStartCuts(raw);
    var core, after := TrimEndCuts(rest);
    hide TrimStart, TrimEnd, AllBlank, Blank;
    assert core != [] ==> core[0] == rest[0];
    assert raw == before + core + after;
    assert Around(raw, before, core, after);
  }

  lemma CoreIsEmptyIffBlank(raw: string, before: string, core: string, after: string)
    requires Around(raw, before, core, after)
    ensures core == [] <==> AllBlank(raw)
  {
    if core != [] {
      assert raw[|before|] == core[0];
    }
  }

  /** Of two ways to split off the white space, neither has more of it in front, nor behind. */
  lemma NoMoreAround(raw: string, pa: string, a: string, qa: string, pb: string, b: string, qb: string)
    requires Around(raw, pa, a, qa) && Around(raw, pb, b, qb) && a != []
    ensures |pb| <= |pa| && |qb| <= |qa|
  {
    assert raw[|pa|] == a[0] && raw[|pa| + |a| - 1] == a[|a| - 1];
    assert forall i :: 0 <= i < |pb| ==> raw[i] == pb[i];
    assert forall i :: |raw| - |qb| <= i < |raw| ==> raw[i] == qb[i - (|raw| - |qb|)];
  }

  lemma PaddedIsUnique(raw: string, a: string, b: string)
    requires Padded(raw, a) && Padded(raw, b)
    ensures a == b
  {
    var pa, qa :| Around(raw, pa, a, qa);
    var pb, qb :| Around(raw, pb, b, qb);
    CoreIsEmptyIffBlank(raw, pa, a, qa);
    CoreIsEmptyIffBlank(raw, pb, b, qb);
    if a != [] {
      NoMoreAround(raw, pa, a, qa, pb, b, qb);
      NoMoreAround(raw, pb, b, qb, pa, a, qa);
      assert a == raw[|pa|..|raw| - |qa|] && b == raw[|pb|..|raw| - |qb|];
    }
  }

  /** `trim` removes exactly the white space around. */
  lemma TrimMeans(raw: string, core: string)
    ensures Trim(raw) == core <==> Padded(raw, core)
  {
    TrimIsPadded(raw);
    hide Padded, Trim;
    if Padded(raw, core) {
      PaddedIsUnique(raw, core, Trim(raw));
    }
  }

  // ---------------------------------------------------------------- tracestate

  predicate KeyCharacter(c: char) {
    'a' <= c <= 'z' || '0' <= c <= '9' || c == '_' || c == '-' || c == '*' || c == '/'
  }

  /** An identifier of at most `n` characters; `digit` tells whether it may start with one. */
  ghost predicate Identifier(s: string, n: nat, digit: bool) {
    && 1 <= |s| <= n && (forall i :: 0 <= i < |s| ==> KeyCharacter(s[i]))
    && ('a' <= s[0] <= 'z' || (digit && '0' <= s[0] <= '9'))
  }

  /** A simple key, or a tenant and a system around an `@`. */
  ghost predicate StateKey(key: string) {
    || Identifier(key, 256, false)
    || exists tenant, system :: TenantKey(key, tenant, system)
  }

  ghost predicate TenantKey(key: string, tenant: string, system: string) {
    key == tenant + ['@'] + system && Identifier(tenant, 241, true) && Identifier(system, 14, false)
  }

  ghost predicate StateValue(v: string) {
    && 1 <= |v| <= 256 && v[|v| - 1] != ' '
    && forall i :: 0 <= i < |v| ==> ' ' <= v[i] <= '~' && v[i] != ',' && v[i] != '='
  }

  ghost predicate StateMember(member: string, key: string, value: string) {
    member == key + ['='] + value && StateKey(key) && StateValue(value)
  }

  lemma FirstAt(before: string, after: string, c: char, whole: string)
    requires whole == before + [c] + after && c !in before
    ensures IndexOf(whole, c) == |before| && whole[..|before|] == before && whole[|before| + 1..] == after
  {
    IndexOfFirst(before, after, c);
  }

  lemma CutAtFirst(whole: string, c: char)
    requires IndexOf(whole, c) >= 0
    ensures var i := IndexOf(whole, c); whole == whole[..i] + [c] + whole[i + 1..] && c !in whole[..i]
  {
  }

  lemma IdentifierMeans(s: string, n: nat)
    ensures Identifier(s, n, false) <==> 1 <= |s| <= n && LowerCase(s[0]) && All(s, KeyChar)
    ensures Identifier(s, n, true) <==> 1 <= |s| <= n && (LowerCase(s[0]) || Digit(s[0])) && All(s, KeyChar)
    ensures Identifier(s, n, false) || Identifier(s, n, true) ==> '@' !in s && '=' !in s && ',' !in s
  {
  }

  lemma StateKeyMeans(key: string)
    ensures ValidKey(key) <==> StateKey(key)
  {
    var at := IndexOf(key, '@');
    IdentifierMeans(key, 256);
    hide Identifier, All, KeyChar, LowerCase, Digit;
    if at < 0 {
      forall tenant, system ensures !TenantKey(key, tenant, system) {
        TenantHasAt(key, tenant, system);
      }
      assert ValidKey(key) <==> StateKey(key);
    } else {
      CutAtFirst(key, '@');
      var tenant, system := key[..at], key[at + 1..];
      IdentifierMeans(tenant, 241);
      IdentifierMeans(system, 14);
      SystemHasNoAt(system);
      forall t, s | TenantKey(key, t, s) ensures t == tenant && s == system {
        IdentifierMeans(t, 241);
        FirstAt(t, s, '@', key);
      }
      assert !Identifier(key, 256, false) by { assert key[at] == '@'; }
      assert TenantKey(key, tenant, system) <==> Identifier(tenant, 241, true) && Identifier(system, 14, false);
      assert ValidKey(key) <==> StateKey(key);
    }
  }

  lemma TenantHasAt(key: string, tenant: string, system: string)
    ensures TenantKey(key, tenant, system) ==> '@' in key
  {
    if TenantKey(key, tenant, system) {
      assert key[|tenant|] == '@';
    }
  }

  lemma SystemHasNoAt(system: string)
    ensures Identifier(system, 14, false) ==> IndexOf(system, '@') == -1
  {
    IdentifierMeans(system, 14);
    hide Identifier;
  }

  lemma StateKeyShape(key: string)
    requires StateKey(key)
    ensures '=' !in key && key != []
  {
    if Identifier(key, 256, false) {
      IdentifierMeans(key, 256);
    } else {
      var tenant, system :| TenantKey(key, tenant, system);
      IdentifierMeans(tenant, 241);
      IdentifierMeans(system, 14);
    }
  }

  ghost predicate HasKey(member: string, key: string) {
    exists value :: StateMember(member, key, value)
  }

  ghost predicate IsMember(member: string) {
    exists key :: HasKey(member, key)
  }

  /** A member is accepted exactly when it is a key and a value of the grammar around its first `=`. */
  lemma MemberMeans(member: string)
    ensures ValidMember(member) <==> IsMember(member)
    ensures forall key :: HasKey(member, key) <==> ValidMember(member) && key == KeyOf(member)
  {
    hide StateMember, ValidMember, KeyOf;
    forall key, value | StateMember(member, key, value) ensures ValidMember(member) && KeyOf(member) == key {
      StateMemberIsFound(member, key, value);
    }
    if ValidMember(member) {
      var value := FoundIsStateMember(member);
      assert HasKey(member, KeyOf(member));
    }
    assert forall key :: HasKey(member, key) <==> ValidMember(member) && key == KeyOf(member);
  }

  lemma StateMemberIsFound(member: string, key: string, value: string)
    requires StateMember(member, key, value)
    ensures ValidMember(member) && KeyOf(member) == key
  {
    StateKeyShape(key);
    FirstAt(key, value, '=', member);
    StateKeyMeans(key);
    hide StateKey, ValidKey, IndexOf;
    assert ValidValue(value);
  }

  lemma FoundIsStateMember(member: string) returns (value: string)
    requires ValidMember(member)
    ensures StateMember(member, KeyOf(member), value)
  {
    var at := IndexOf(member, '=');
    CutAtFirst(member, '=');
    StateKeyMeans(member[..at]);
    value := member[at + 1..];
    hide StateKey, ValidKey, IndexOf;
    assert StateMember(member, member[..at], value);
  }

  /** `members` are the members of the header: its parts between commas without the white space around
      them, each in the grammar, no key twice. */
  ghost predicate StateMembers(value: string, members: seq<string>) {
    && |members| == |Split(value, ',')| <= 32
    && (forall i :: 0 <= i < |members| ==> Padded(Split(value, ',')[i], members[i]))
    && (forall i :: 0 <= i < |members| ==> IsMember(members[i]))
    && (forall i, j, key :: 0 <= i < j < |members| && HasKey(members[i], key) ==> !HasKey(members[j], key))
  }

  /** What `validTracestate` accepts, and what it returns. */
  lemma TracestateMeans(value: string, out: string)
    ensures Tracestate(value) == Some(out) <==>
              && 1 <= |value| <= 512 && !Blank(value[0]) && !Blank(value[|value| - 1])
              && exists members :: StateMembers(value, members) && out == Intercalate(members, ',')
  {
    var members := TrimAll(Split(value, ','));
    TrimmedIff(value);
    ValidMembersMeans(value);
    forall ms | StateMembers(value, ms) ensures ms == members {
      MembersAreTrims(value, ms);
    }
    hide StateMembers, ValidMembers, TrimAll, Trim, Split, Intercalate, Blank;
    if StateMembers(value, members) && 1 <= |value| <= 512 && !Blank(value[0]) && !Blank(value[|value| - 1]) {
      assert Tracestate(value) == Some(Intercalate(members, ','));
    }
    if Tracestate(value) == Some(out) {
      assert StateMembers(value, members) && out == Intercalate(members, ',');
    }
  }

  lemma TrimmedIff(value: string)
    ensures value != [] ==> (value == Trim(value) <==> !Blank(value[0]) && !Blank(value[|value| - 1]))
  {
    TrimMeans(value, value);
    hide Trim, Blank;
    if value != [] && !Blank(value[0]) && !Blank(value[|value| - 1]) {
      assert Around(value, [], value, []);
    }
  }

  lemma ValidMembersMeans(value: string)
    ensures var members := TrimAll(Split(value, ','));
            StateMembers(value, members) <==> |members| <= 32 && ValidMembers(members)
  {
    var parts, members := Split(value, ','), TrimAll(Split(value, ','));
    hide HasKey, IsMember, ValidMember, KeyOf, Padded, Split, Trim;
    forall i | 0 <= i < |members| ensures Padded(parts[i], members[i]) {
      TrimIsPadded(parts[i]);
    }
    hide TrimAll;
    forall i | 0 <= i < |members|
      ensures ValidMember(members[i]) <==> IsMember(members[i])
      ensures forall key :: HasKey(members[i], key) <==> ValidMember(members[i]) && key == KeyOf(members[i])
    {
      MemberMeans(members[i]);
    }
    if StateMembers(value, members) {
      forall i, j | 0 <= i < j < |members| ensures KeyOf(members[i]) != KeyOf(members[j]) {
        assert HasKey(members[i], KeyOf(members[i]));
      }
      assert ValidMembers(members);
    }
    if |members| <= 32 && ValidMembers(members) {
      forall i, j, key | 0 <= i < j < |members| && HasKey(members[i], key) ensures !HasKey(members[j], key) {
        assert KeyOf(members[i]) != KeyOf(members[j]);
      }
      assert StateMembers(value, members);
    }
  }

  lemma MembersAreTrims(value: string, members: seq<string>)
    requires StateMembers(value, members)
    ensures members == TrimAll(Split(value, ','))
  {
    var parts := Split(value, ',');
    hide Padded, Trim, HasKey, IsMember;
    forall i | 0 <= i < |members| ensures members[i] == TrimAll(parts)[i] {
      TrimMeans(parts[i], members[i]);
    }
  }

  // ---------------------------------------------------------------- percent encoding

  /** A hexadecimal digit and its value. */
  ghost predicate Hex(c: char, value: int, lower: bool) {
    && 0 <= value < 16
    && (c == "0123456789ABCDEF"[value] || (lower && c == "0123456789abcdef"[value]))
  }

  ghost predicate Escape(part: string, c: char, lower: bool) {
    && |part| == 3 && part[0] == '%'
    && exists high, low :: Hex(part[1], high, lower) && Hex(part[2], low, lower) && c as int == 16 * high + low
  }

  /** `part` decodes to `c`: the character itself, or its escape with digits of either case. */
  ghost predicate DecodesTo(part: string, c: char) {
    (part == [c] && c != '%') || (c as int < 128 && Escape(part, c, true))
  }

  /** `part` is what `c` is encoded to: itself if it is a letter, a digit or one of nine marks, and
      otherwise its escape in upper case. */
  ghost predicate EncodesTo(c: char, part: string) {
    if 'A' <= c <= 'Z' || 'a' <= c <= 'z' || '0' <= c <= '9' || c in "-_.!~*'()" then part == [c]
    else Escape(part, c, false)
  }

  ghost predicate PartByPart(parts: seq<string>, v: string, whole: string) {
    |parts| == |v| && whole == Flatten(parts) && forall i :: 0 <= i < |v| ==> DecodesTo(parts[i], v[i])
  }

  lemma {:induction false} FlattenCons(part: string, parts: seq<string>)
    ensures Flatten([part] + parts) == part + Flatten(parts)
  {
    var all := [part] + parts;
    if parts == [] {
      assert all[..0] == [] && Flatten(all) == Flatten([]) + part;
    } else {
      var n := |parts| - 1;
      FlattenCons(part, parts[..n]);
      assert all[..|all| - 1] == [part] + parts[..n];
    }
  }

  lemma HexMeans(c: char, value: int)
    ensures Hex(c, value, true) <==> 0 <= value < 16 && HexValue(c) == value
  {
  }

  lemma EscapeMeans(part: string, c: char)
    requires |part| == 3 && part[0] == '%'
    ensures Escape(part, c, true) && c as int < 128 <==>
              0 <= HexValue(part[1]) < 8 && HexValue(part[2]) >= 0
              && c as int == 16 * HexValue(part[1]) + HexValue(part[2])
  {
    HexMeans(part[1], HexValue(part[1]));
    HexMeans(part[2], HexValue(part[2]));
    forall h, l | Hex(part[1], h, true) && Hex(part[2], l, true)
      ensures h == HexValue(part[1]) && l == HexValue(part[2])
    {
      HexMeans(part[1], h);
      HexMeans(part[2], l);
    }
    HexRange(part[1]);
    HexRange(part[2]);
    hide Hex, HexValue;
  }

  lemma HexRange(c: char)
    ensures -1 <= HexValue(c) < 16
  {
  }

  /** One step of decoding: the first part, and what it decodes to. */
  lemma FirstPart(s: string, v: string) returns (part: string)
    requires s != [] && Decode(s) == Some(v)
    ensures v != [] && part <= s && part != [] && DecodesTo(part, v[0])
    ensures Decode(s[|part|..]) == Some(v[1..])
  {
    if s[0] != '%' {
      part := [s[0]];
    } else {
      part := s[..3];
      EscapeMeans(part, v[0]);
    }
  }

  lemma {:induction false} DecodedByParts(s: string, v: string) returns (parts: seq<string>)
    requires Decode(s) == Some(v)
    ensures PartByPart(parts, v, s)
  {
    parts := [];
    if s != [] {
      hide Decode, DecodesTo, Flatten;
      var part := FirstPart(s, v);
      var rest := s[|part|..];
      var more := DecodedByParts(rest, v[1..]);
      OnePartMore(part, more, v, s);
      parts := [part] + more;
    }
  }

  lemma OnePartMore(part: string, more: seq<string>, v: string, s: string)
    requires v != [] && part <= s && DecodesTo(part, v[0]) && PartByPart(more, v[1..], s[|part|..])
    ensures PartByPart([part] + more, v, s)
  {
    hide DecodesTo, Flatten;
    FlattenCons(part, more);
    var parts := [part] + more;
    assert s == part + s[|part|..];
    forall i | 0 <= i < |v| ensures DecodesTo(parts[i], v[i]) {
      if i > 0 {
        assert DecodesTo(more[i - 1], v[1..][i - 1]);
      }
    }
  }

  lemma DecodePart(part: string, c: char, rest: string)
    requires DecodesTo(part, c)
    ensures Decode(part + rest) == Prefixed(c, Decode(rest))
  {
    assert (part + rest)[|part|..] == rest;
    if |part| == 3 && part[0] == '%' {
      EscapeMeans(part, c);
    }
  }

  lemma PrefixedSome(c: char, rest: string)
    ensures Prefixed(c, Some(rest)) == Some([c] + rest)
  {
  }

  lemma {:induction false} PartsDecode(parts: seq<string>, v: string)
    requires |parts| == |v| && forall i :: 0 <= i < |v| ==> DecodesTo(parts[i], v[i])
    ensures Decode(Flatten(parts)) == Some(v)
  {
    if v == [] {
    } else {
      hide DecodesTo, Decode, Flatten, Prefixed;
      forall i | 0 <= i < |v| - 1 ensures DecodesTo(parts[1..][i], v[1..][i]) {
        assert DecodesTo(parts[i + 1], v[i + 1]);
      }
      PartsDecode(parts[1..], v[1..]);
      FlattenCons(parts[0], parts[1..]);
      assert parts == [parts[0]] + parts[1..];
      DecodePart(parts[0], v[0], Flatten(parts[1..]));
      PrefixedSome(v[0], v[1..]);
      assert [v[0]] + v[1..] == v;
      assert Decode(Flatten(parts)) == Some(v);
    }
  }

  /** Decoding a text gives `v` exactly when it consists of parts that decode to the characters of `v`. */
  lemma DecodeMeans(s: string, v: string)
    ensures Decode(s) == Some(v) <==> exists parts :: PartByPart(parts, v, s)
  {
    if Decode(s) == Some(v) {
      var parts := DecodedByParts(s, v);
    }
    if parts :| PartByPart(parts, v, s) {
      PartsDecode(parts, v);
    }
  }

  lemma HexDigitMeans(n: int)
    requires 0 <= n < 16
    ensures Hex(HexDigit(n), n, false)
  {
  }

  lemma EncodeCharMeans(c: char)
    requires Octet(c)
    ensures EncodesTo(c, EncodeChar(c))
  {
    HexDigitMeans(c as int / 16);
    HexDigitMeans(c as int % 16);
    var e := EncodeChar(c);
    if !Unreserved(c) {
      hide HexDigit, Hex;
      assert Hex(e[1], c as int / 16, false) && Hex(e[2], c as int % 16, false);
      assert Escape(e, c, false);
    }
  }

  /** What is printed for a value, character by character. */
  lemma {:induction false} EncodeMeans(v: string) returns (parts: seq<string>)
    requires All(v, Octet)
    ensures |parts| == |v| && Encode(v) == Flatten(parts)
    ensures forall i :: 0 <= i < |v| ==> EncodesTo(v[i], parts[i])
  {
    parts := [];
    if v != [] {
      var more := EncodeMeans(v[1..]);
      EncodeCharMeans(v[0]);
      FlattenCons(EncodeChar(v[0]), more);
      parts := [EncodeChar(v[0])] + more;
      hide EncodesTo, EncodeChar, Flatten;
      assert forall i :: 1 <= i < |v| ==> parts[i] == more[i - 1] && v[i] == v[1..][i - 1];
      assert Encode(v) == Flatten(parts);
    }
  }

  // ---------------------------------------------------------------- baggage

  ghost predicate BaggageValue(v: string) {
    && 1 <= |v| <= 256
    && forall i :: 0 <= i < |v| ==> '!' <= v[i] <= '~' && v[i] != '"' && v[i] != ',' && v[i] != ';' && v[i] != '\\'
  }

  /** The same letters, in either case. */
  ghost predicate SameName(s: string, name: string) {
    && |s| == |name|
    && forall i :: 0 <= i < |s| ==> s[i] == name[i] || ('A' <= s[i] <= 'Z' && name[i] as int == s[i] as int + 32)
  }

  ghost predicate Spells(raw: string, n: Name) {
    exists core :: Padded(raw, core)
                   && match n
                      case CorrelationId => SameName(core, "correlation-id")
                      case Deployment => SameName(core, "deployment")
  }

  /** An item of the allow list: its name in either case with white space around, and an encoded value. */
  ghost predicate BaggageItem(item: string, n: Name, v: string) {
    exists raw, encoded :: EncodedItem(item, raw, encoded, n, v)
  }

  ghost predicate EncodedItem(item: string, raw: string, encoded: string, n: Name, v: string) {
    && item == raw + ['='] + encoded && '=' !in raw && Spells(raw, n)
    && BaggageValue(encoded) && BaggageValue(v) && exists parts :: PartByPart(parts, v, encoded)
  }

  lemma LowerMeans(s: string, name: string)
    requires forall i :: 0 <= i < |name| ==> !UpperCase(name[i])
    ensures Lower(s) == name <==> SameName(s, name)
  {
    if Lower(s) == name {
      assert forall i :: 0 <= i < |s| ==> Lower(s)[i] == name[i];
    }
  }

  lemma NamesAreLower()
    ensures forall i :: 0 <= i < |"correlation-id"| ==> !UpperCase("correlation-id"[i])
    ensures forall i :: 0 <= i < |"deployment"| ==> !UpperCase("deployment"[i])
  {
  }

  lemma SpellsMeans(raw: string, n: Name)
    ensures Allowed(Lower(Trim(raw))) == Some(n) <==> Spells(raw, n)
    ensures Spells(raw, n) ==> raw != []
  {
    var core := Trim(raw);
    NamesAreLower();
    LowerMeans(core, "correlation-id");
    LowerMeans(core, "deployment");
    NamesDiffer();
    hide SameName, Lower;
    assert Allowed(Lower(core)) == Some(n) <==> match n
                                                case CorrelationId => SameName(core, "correlation-id")
                                                case Deployment => SameName(core, "deployment");
    TrimIsPadded(raw);
    forall c | Padded(raw, c) ensures c == core {
      TrimMeans(raw, c);
    }
    hide Padded, Trim, Allowed;
    assert Allowed(Lower(core)) == Some(n) <==> Spells(raw, n);
    NoNameIsEmpty(raw, n);
  }

  lemma NamesDiffer()
    ensures "correlation-id" != "deployment"
  {
    assert |"correlation-id"| == 14 && |"deployment"| == 10;
  }

  lemma NoNameIsEmpty(raw: string, n: Name)
    ensures Spells(raw, n) ==> raw != []
  {
    assert |"correlation-id"| == 14 && |"deployment"| == 10;
  }

  /** What one item of the header gives. */
  lemma ReadItemMeans(item: string, n: Name, v: string)
    ensures ReadItem(item) == Some((n, v)) <==> BaggageItem(item, n, v)
  {
    hide EncodedItem, ReadItem;
    forall raw, encoded | EncodedItem(item, raw, encoded, n, v) ensures ReadItem(item) == Some((n, v)) {
      ItemIsRead(item, raw, encoded, n, v);
    }
    if ReadItem(item) == Some((n, v)) {
      var raw, encoded := ReadIsItem(item, n, v);
    }
  }

  lemma ValueMeans(v: string)
    ensures GoodValue(v) <==> BaggageValue(v)
  {
  }

  lemma ItemIsRead(item: string, raw: string, encoded: string, n: Name, v: string)
    requires EncodedItem(item, raw, encoded, n, v)
    ensures ReadItem(item) == Some((n, v))
  {
    hide Spells, PartByPart, Decode, Lower, Trim, Allowed, IndexOf, GoodValue, BaggageValue;
    FirstAt(raw, encoded, '=', item);
    SpellsMeans(raw, n);
    DecodeMeans(encoded, v);
    ValueMeans(encoded);
    ValueMeans(v);
    assert ReadItem(item) == Some((n, v));
  }

  lemma ReadIsItem(item: string, n: Name, v: string) returns (raw: string, encoded: string)
    requires ReadItem(item) == Some((n, v))
    ensures EncodedItem(item, raw, encoded, n, v)
  {
    hide Spells, PartByPart, Decode, Lower, Trim, Allowed, IndexOf, GoodValue, BaggageValue;
    var at := IndexOf(item, '=');
    CutAtFirst(item, '=');
    raw, encoded := item[..at], item[at + 1..];
    SpellsMeans(raw, n);
    DecodeMeans(encoded, v);
    ValueMeans(encoded);
    ValueMeans(v);
    assert EncodedItem(item, raw, encoded, n, v);
  }

  /** The first of the items that give a value for `n`. */
  ghost predicate FirstItem(items: seq<string>, i: nat, n: Name, v: string) {
    i < |items| && BaggageItem(items[i], n, v) && forall k, w :: 0 <= k < i ==> !BaggageItem(items[k], n, w)
  }

  /** The first acceptable item of a name counts. */
  lemma {:induction false} ReadItemsMeans(items: seq<string>, n: Name, v: string)
    ensures n in ReadItems(items) && ReadItems(items)[n] == v <==> exists i: nat :: FirstItem(items, i, n, v)
    ensures n in ReadItems(items) <==> exists k, w :: 0 <= k < |items| && BaggageItem(items[k], n, w)
  {
    hide BaggageItem, ReadItem;
    if items != [] {
      var m := |items| - 1;
      var init, last := items[..m], items[m];
      ReadItemsMeans(init, n, v);
      LastItem(init, last, n);
      assert items == init + [last];
      hide ReadItems;
      assert forall k :: 0 <= k < m ==> init[k] == items[k];
      if i: nat :| FirstItem(init, i, n, v) {
        assert FirstItem(items, i, n, v);
      }
      if n !in ReadItems(init) && BaggageItem(last, n, v) {
        assert FirstItem(items, m, n, v);
      }
      if i: nat :| FirstItem(items, i, n, v) {
        assert i < m ==> FirstItem(init, i, n, v);
        assert i == m ==> n !in ReadItems(init);
      }
      assert n in ReadItems(items) && ReadItems(items)[n] == v <==> exists i: nat :: FirstItem(items, i, n, v);
    }
  }

  lemma LastItem(init: seq<string>, last: string, n: Name)
    ensures var before, after := ReadItems(init), ReadItems(init + [last]);
            && (n in before ==> n in after && after[n] == before[n])
            && (n !in before ==> forall v :: n in after && after[n] == v <==> BaggageItem(last, n, v))
            && (n !in before ==> (n in after <==> exists v :: BaggageItem(last, n, v)))
  {
    assert (init + [last])[..|init|] == init;
    forall v ensures ReadItem(last) == Some((n, v)) <==> BaggageItem(last, n, v) {
      ReadItemMeans(last, n, v);
    }
    hide BaggageItem, ReadItem;
    var before, after := ReadItems(init), ReadItems(init + [last]);
    if n in after && n !in before {
      assert ReadItem(last) == Some((n, after[n]));
    }
  }

  /** What `safeBaggage` reads from a header. */
  lemma BaggageMeans(header: string, n: Name, v: string)
    ensures n in SafeBaggage(Some(header)) && SafeBaggage(Some(header))[n] == v <==>
              && |header| <= 1_024 && |Split(header, ',')| <= 8
              && exists i: nat :: FirstItem(Split(header, ','), i, n, v)
  {
    ReadItemsMeans(Split(header, ','), n, v);
    hide FirstItem, ReadItems, Split;
  }

  /** What `mcpTraceCarrier` prints for the baggage: the names in order, each with its encoded value. */
  lemma PrintedBaggage(b: Items)
    requires GoodItems(b)
    ensures b == map[] ==> PrintBaggage(b) == None
    ensures CorrelationId in b && Deployment !in b ==>
              PrintBaggage(b) == Some("correlation-id" + "=" + Encode(b[CorrelationId]))
    ensures CorrelationId !in b && Deployment in b ==>
              PrintBaggage(b) == Some("deployment" + "=" + Encode(b[Deployment]))
    ensures CorrelationId in b && Deployment in b ==>
              PrintBaggage(b) == Some("correlation-id" + "=" + Encode(b[CorrelationId]) + [',']
                                      + ("deployment" + "=" + Encode(b[Deployment])))
  {
    PrintedList(b);
    if CorrelationId in b { PrintedItem(CorrelationId, b[CorrelationId]); }
    if Deployment in b { PrintedItem(Deployment, b[Deployment]); }
    hide PrintItems, GoodItems, Encode, PrintItem;
    if CorrelationId in b {
      JoinedItems(PrintItem(CorrelationId, b[CorrelationId]),
                  if Deployment in b then PrintItem(Deployment, b[Deployment]) else []);
    } else if Deployment in b {
      JoinedItems(PrintItem(Deployment, b[Deployment]), []);
    }
  }

  lemma PrintedList(b: Items)
    requires GoodItems(b)
    ensures PrintItems(b) == (if CorrelationId in b then [PrintItem(CorrelationId, b[CorrelationId])] else [])
                             + (if Deployment in b then [PrintItem(Deployment, b[Deployment])] else [])
  {
    hide PrintItem;
    assert [CorrelationId][..0] == [] && [CorrelationId, Deployment][..1] == [CorrelationId];
    assert PrintList(b, []) == [];
    assert PrintList(b, [CorrelationId])
        == [] + if CorrelationId in b then [PrintItem(CorrelationId, b[CorrelationId])] else [];
  }

  lemma PrintedItem(n: Name, v: string)
    requires All(v, Octet)
    ensures n == CorrelationId ==> PrintItem(n, v) == "correlation-id" + "=" + Encode(v)
    ensures n == Deployment ==> PrintItem(n, v) == "deployment" + "=" + Encode(v)
    ensures PrintItem(n, v) != []
  {
  }

  lemma JoinedItems(first: string, second: string)
    ensures Intercalate([first], ',') == first
    ensures Intercalate([first, second], ',') == first + [','] + second
  {
    assert [first, second][1..] == [second];
  }
}
