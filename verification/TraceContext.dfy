/** Reading a trace context from request headers, and printing it for the next hop.

    The formats are those of W3C Trace Context (traceparent: section 3.2.2, tracestate: section
    3.3.1), of W3C Baggage (section 3) and of percent encoding (RFC 3986, section 2.1).
    Header values are strings of single-byte characters. */
module TraceContext {
  import opened Sequences

  const TRACESTATE_MAX_LENGTH := 512
  const BAGGAGE_MAX_LENGTH := 1_024
  const BAGGAGE_MAX_ITEMS := 8
  const BAGGAGE_VALUE_MAX_LENGTH := 256

  // ---------------------------------------------------------------- characters and strings

  predicate Digit(c: char) { '0' <= c <= '9' }
  predicate LowerCase(c: char) { 'a' <= c <= 'z' }
  predicate UpperCase(c: char) { 'A' <= c <= 'Z' }
  predicate LowerHex(c: char) { Digit(c) || 'a' <= c <= 'f' }

  predicate All(s: string, p: char -> bool) {
    forall i :: 0 <= i < |s| ==> p(s[i])
  }

  /** The white space `trim` removes, as far as a header can contain it. */
  predicate Space(c: char) {
    c == ' ' || '\t' <= c <= '\r' || c == '\U{00A0}'
  }

  function TrimStart(s: string): (r: string)
    ensures |r| <= |s|
  {
    if s != [] && Space(s[0]) then TrimStart(s[1..]) else s
  }

  function TrimEnd(s: string): (r: string)
    ensures |r| <= |s|
  {
    if s != [] && Space(s[|s| - 1]) then TrimEnd(s[..|s| - 1]) else s
  }

  function Trim(s: string): (r: string)
    ensures |r| <= |s|
    ensures s != [] && !Space(s[0]) && !Space(s[|s| - 1]) ==> r == s
  {
    TrimEnd(TrimStart(s))
  }

  function Lower(s: string): string {
    seq(|s|, i requires 0 <= i < |s| => if UpperCase(s[i]) then s[i] + 'a' - 'A' else s[i])
  }

  /** `s.indexOf(c)`, or -1. */
  function IndexOf(s: string, c: char): (i: int)
    ensures -1 <= i < |s|
    ensures i >= 0 ==> s[i] == c && c !in s[..i]
    ensures i < 0 ==> c !in s
  {
    if s == [] then -1
    else if s[0] == c then 0
    else
      var i := IndexOf(s[1..], c);
      assert i >= 0 ==> s[..i + 1] == [s[0]] + s[1..][..i];
      if i < 0 then -1 else i + 1
  }

  lemma {:induction false} IndexOfFirst(before: string, after: string, c: char)
    requires c !in before
    ensures IndexOf(before + [c] + after, c) == |before|
  {
    if before != [] {
      IndexOfFirst(before[1..], after, c);
      assert (before + [c] + after)[1..] == before[1..] + [c] + after;
    }
  }

  // ---------------------------------------------------------------- traceparent

  datatype Parent = Parent(traceId: string, spanId: string, flags: string)

  function Zeros(n: nat): string { seq(n, _ => '0') }

  function PrintTraceparent(p: Parent): string {
    "00-" + p.traceId + "-" + p.spanId + "-" + p.flags
  }

  predicate ValidParent(p: Parent) {
    && |p.traceId| == 32 && |p.spanId| == 16 && |p.flags| == 2
    && All(p.traceId, LowerHex) && All(p.spanId, LowerHex) && All(p.flags, LowerHex)
    && p.traceId != Zeros(32) && p.spanId != Zeros(16)
  }

  function ValidTraceparent(value: Option<string>): Option<Parent> {
    if value.None? || |value.value| != 55 then None
    else
      var v := value.value;
      var p := Parent(v[3..35], v[36..52], v[53..55]);
      if v[..3] == "00-" && v[35] == '-' && v[52] == '-'
         && All(p.traceId, LowerHex) && All(p.spanId, LowerHex) && All(p.flags, LowerHex)
         && p.traceId != Zeros(32) && p.spanId != Zeros(16)
      then Some(p) else None
  }

  lemma PrintedPieces(p: Parent)
    requires |p.traceId| == 32 && |p.spanId| == 16 && |p.flags| == 2
    ensures var v := PrintTraceparent(p);
            && |v| == 55 && v[..3] == "00-" && v[35] == '-' && v[52] == '-'
            && v[3..35] == p.traceId && v[36..52] == p.spanId && v[53..55] == p.flags
  {
    var a := "00-" + p.traceId;
    var b := a + "-";
    var c := b + p.spanId;
    var d := c + "-";
    var v := d + p.flags;
    assert a[..3] == "00-" && a[3..35] == p.traceId;
    assert b[..35] == a && c[..36] == b && c[36..52] == p.spanId && d[..52] == c;
    assert v[..53] == d && v[53..55] == p.flags;
  }

  lemma PiecesArePrinted(value: string, p: Parent)
    requires |value| == 55 && value[..3] == "00-" && value[35] == '-' && value[52] == '-'
    requires p == Parent(value[3..35], value[36..52], value[53..55])
    ensures value == PrintTraceparent(p)
  {
    var a := value[..3] + value[3..35];
    assert a == value[..35];
    var b := a + "-";
    assert b == value[..36];
    var c := b + value[36..52];
    assert c == value[..52];
    var d := c + "-";
    assert d == value[..53];
    assert value == d + value[53..55];
  }

  /** Exactly the printed forms of valid parents are accepted, each giving its parent back. */
  lemma TraceparentRoundTrip(value: string, p: Parent)
    ensures ValidTraceparent(Some(value)) == Some(p) <==> ValidParent(p) && value == PrintTraceparent(p)
  {
    if ValidTraceparent(Some(value)) == Some(p) {
      PiecesArePrinted(value, p);
    }
    if ValidParent(p) && value == PrintTraceparent(p) {
      PrintedPieces(p);
    }
    hide PrintTraceparent, All, Zeros;
    assert ValidTraceparent(Some(value)) == Some(p) <==> ValidParent(p) && value == PrintTraceparent(p);
  }

  // ---------------------------------------------------------------- tracestate

  predicate KeyChar(c: char) {
    LowerCase(c) || Digit(c) || c == '_' || c == '-' || c == '*' || c == '/'
  }

  predicate ValidKey(key: string) {
    var at := IndexOf(key, '@');
    if at == -1 then
      1 <= |key| <= 256 && LowerCase(key[0]) && All(key, KeyChar)
    else
      var tenant, system := key[..at], key[at + 1..];
      && IndexOf(system, '@') == -1
      && 1 <= |tenant| <= 241 && (LowerCase(tenant[0]) || Digit(tenant[0])) && All(tenant, KeyChar)
      && 1 <= |system| <= 14 && LowerCase(system[0]) && All(system, KeyChar)
  }

  predicate ValueChar(c: char) {
    ' ' <= c <= '~' && c != ',' && c != '='
  }

  predicate ValidValue(value: string) {
    1 <= |value| <= 256 && All(value, ValueChar) && value[|value| - 1] != ' '
  }

  function KeyOf(member: string): string {
    var separator := IndexOf(member, '=');
    if separator < 0 then [] else member[..separator]
  }

  predicate ValidMember(member: string) {
    var separator := IndexOf(member, '=');
    separator >= 1 && ValidKey(member[..separator]) && ValidValue(member[separator + 1..])
  }

  function TrimAll(parts: seq<string>): (r: seq<string>)
    ensures |r| == |parts|
  {
    seq(|parts|, i requires 0 <= i < |parts| => Trim(parts[i]))
  }

  ghost predicate ValidMembers(members: seq<string>) {
    && (forall i :: 0 <= i < |members| ==> ValidMember(members[i]))
    && (forall i, j :: 0 <= i < j < |members| ==> KeyOf(members[i]) != KeyOf(members[j]))
  }

  /** What `validTracestate` returns: the trimmed members, or nothing at the first fault. */
  ghost function Tracestate(value: string): Option<string> {
    var members := TrimAll(Split(value, ','));
    if 1 <= |value| <= TRACESTATE_MAX_LENGTH && value == Trim(value) && |members| <= 32 && ValidMembers(members)
    then Some(Intercalate(members, ',')) else None
  }

  ghost function ValidTracestate(value: Option<string>): Option<string> {
    if value.None? then None else Tracestate(value.value)
  }

  ghost function KeySet(members: seq<string>): set<string> {
    set i | 0 <= i < |members| :: KeyOf(members[i])
  }

  lemma NoMembers()
    ensures ValidMembers([]) && KeySet([]) == {}
  {
  }

  lemma TrimAllAt(parts: seq<string>, i: nat)
    requires i < |parts|
    ensures TrimAll(parts)[i] == Trim(parts[i])
  {
  }

  lemma OneMoreMember(members: seq<string>, member: string)
    requires ValidMembers(members)
    ensures ValidMembers(members + [member]) <==> ValidMember(member) && KeyOf(member) !in KeySet(members)
    ensures KeySet(members + [member]) == KeySet(members) + {KeyOf(member)}
  {
    hide ValidMember, KeyOf;
    var all := members + [member];
    assert all[|members|] == member;
    assert forall i :: 0 <= i < |members| ==> all[i] == members[i];
    assert forall i :: 0 <= i < |members| ==> KeyOf(all[i]) in KeySet(members);
  }

  lemma PrefixDecides(members: seq<string>, n: nat)
    requires n <= |members| && !ValidMembers(members[..n])
    ensures !ValidMembers(members)
  {
    hide ValidMember, KeyOf;
    if ValidMembers(members) {
      assert forall i :: 0 <= i < n ==> members[..n][i] == members[i];
    }
  }

  /** The loop of `validTracestate` over the members, with the set of keys seen. */
  method JoinMembers(members: seq<string>) returns (result: Option<string>)
    ensures result == if ValidMembers(TrimAll(members)) then Some(Intercalate(TrimAll(members), ',')) else None
  {
    hide ValidMember, KeyOf, Trim, ValidMembers, KeySet, TrimAll, Intercalate;
    ghost var trimmed := TrimAll(members);
    var keys: set<string> := {};
    var normalized: seq<string> := [];
    NoMembers();
    for i := 0 to |members|
      invariant normalized == trimmed[..i] && ValidMembers(normalized)
      invariant keys == KeySet(normalized)
    {
      var member := Trim(members[i]);
      TrimAllAt(members, i);
      assert trimmed[..i + 1] == normalized + [member];
      OneMoreMember(normalized, member);
      if !ValidMember(member) || KeyOf(member) in keys {
        PrefixDecides(trimmed, i + 1);
        return None;
      }
      keys := keys + {KeyOf(member)};
      normalized := normalized + [member];
    }
    assert normalized == trimmed;
    return Some(Intercalate(normalized, ','));
  }

  /** `validTracestate` as written. */
  method ParseTracestate(value: Option<string>) returns (result: Option<string>)
    ensures result == ValidTracestate(value)
  {
    hide Trim, Split, ValidMembers, TrimAll, Intercalate;
    if value.None? || |value.value| < 1 || |value.value| > TRACESTATE_MAX_LENGTH || value.value != Trim(value.value) {
      assert ValidTracestate(value) == None;
      return None;
    }
    var members := Split(value.value, ',');
    if |members| > 32 {
      assert ValidTracestate(value) == None;
      return None;
    }
    result := JoinMembers(members);
    assert result == ValidTracestate(value);
  }

  lemma KeyShape(key: string)
    requires ValidKey(key)
    ensures key != [] && ',' !in key && !Space(key[0])
  {
    var at := IndexOf(key, '@');
    assert at >= 0 ==> key == key[..at] + ['@'] + key[at + 1..];
  }

  lemma ValidMemberShape(member: string)
    requires ValidMember(member)
    ensures ',' !in member && member != [] && !Space(member[0]) && !Space(member[|member| - 1])
  {
    var separator := IndexOf(member, '=');
    var key, value := member[..separator], member[separator + 1..];
    KeyShape(key);
    hide ValidKey, IndexOf;
    assert member == key + ['='] + value;
    assert member[0] == key[0] && member[|member| - 1] == value[|value| - 1];
  }

  lemma {:induction false} TrimmedJoin(parts: seq<string>)
    requires parts != []
    ensures |Intercalate(TrimAll(parts), ',')| <= |Intercalate(parts, ',')|
  {
    if |parts| > 1 {
      TrimmedJoin(parts[1..]);
      assert TrimAll(parts)[1..] == TrimAll(parts[1..]);
    }
  }

  lemma {:induction false} JoinEnds(parts: seq<string>)
    requires parts != [] && forall i :: 0 <= i < |parts| ==> parts[i] != []
    ensures var s, last := Intercalate(parts, ','), parts[|parts| - 1];
            s != [] && s[0] == parts[0][0] && s[|s| - 1] == last[|last| - 1]
  {
    if |parts| > 1 {
      JoinEnds(parts[1..]);
    }
  }

  lemma MembersAreTrimmed(members: seq<string>)
    requires ValidMembers(members)
    ensures NoneContains(members, ',') && TrimAll(members) == members
    ensures forall i :: 0 <= i < |members| ==>
              members[i] != [] && !Space(members[i][0]) && !Space(members[i][|members[i]| - 1])
  {
    hide ValidMember, KeyOf, Trim, Space;
    forall i | 0 <= i < |members|
      ensures ',' !in members[i] && members[i] != [] && !Space(members[i][0])
      ensures !Space(members[i][|members[i]| - 1]) && Trim(members[i]) == members[i]
    {
      ValidMemberShape(members[i]);
      TrimmedEnds(members[i]);
    }
    assert TrimAll(members) == members;
  }

  /** A normalized tracestate is accepted unchanged, with pairwise distinct valid keys. */
  lemma TracestateIsNormal(value: string)
    requires Tracestate(value).Some?
    ensures Tracestate(Tracestate(value).value) == Tracestate(value)
    ensures ValidMembers(Split(Tracestate(value).value, ','))
  {
    hide ValidMembers, Trim, TrimAll, Split, Intercalate, Space, NoneContains;
    var members := TrimAll(Split(value, ','));
    MembersAreTrimmed(members);
    SplitOfJoin(members, ',');
    JoinOfSplit(value, ',');
    TrimmedJoin(Split(value, ','));
    JoinEnds(members);
    var joined := Intercalate(members, ',');
    TrimmedEnds(joined);
    assert Tracestate(value) == Some(joined) && Tracestate(joined) == Some(joined);
    assert ValidMembers(Split(joined, ','));
  }

  lemma TrimmedEnds(s: string)
    requires s != [] && !Space(s[0]) && !Space(s[|s| - 1])
    ensures Trim(s) == s
  {
  }
}
