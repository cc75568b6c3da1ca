/**
 RP identifiers (`validate_rp_id` and `validate_agent_rp_rule_id` in
 `agent/config.rs`). IP address parsing and the public suffix list are
 parameters.
 */
module RpIds {
  import opened Bytes
  import opened Texts
  import opened Wrappers

  const DOT: byte := 46
  const SLASH: byte := 47
  const COLON: byte := 58
  const STAR: byte := 42
  const HYPHEN: byte := 45

  /** `ANY_RP_ID`. */
  const ANY_RP_ID: Text := [STAR]

  datatype Hosts = Hosts(isIpAddress: seq<byte> -> bool, isPublicSuffix: seq<byte> -> bool)

  datatype RpIdError =
    | EmptyId | HasScheme | HasPath | HasPort | IsWildcard | TrailingDot
    | IpAddress | InvalidDnsName | SingleLabel | PublicSuffix

  predicate IsDigit(b: byte) { 48 <= b <= 57 }

  predicate IsLabelByte(b: byte) { IsDigit(b) || 65 <= b <= 90 || 97 <= b <= 122 || b == HYPHEN }

  predicate Contains(t: seq<byte>, part: seq<byte>) {
    part <= t || (t != [] && Contains(t[1..], part))
  }

  /** `split('.')`. */
  function Labels(t: seq<byte>): (r: seq<seq<byte>>)
    ensures |r| > 0
  {
    if t == [] then [[]]
    else
      var rest := Labels(t[1..]);
      if t[0] == DOT then [[]] + rest else [[t[0]] + rest[0]] + rest[1..]
  }

  predicate LabelOk(l: seq<byte>) {
    && 0 < |l| <= 63
    && (forall b :: b in l ==> IsLabelByte(b))
    && l[0] != HYPHEN && l[|l| - 1] != HYPHEN
  }

  /** `is_valid_dns_name`. */
  predicate DnsName(t: seq<byte>) { t != [] && forall l :: l in Labels(t) ==> LabelOk(l) }

  /** What follows the last colon, if there is one. */
  function AfterLastColon(t: seq<byte>): Option<seq<byte>> {
    if t == [] then None
    else if t[|t| - 1] == COLON then Some([])
    else
      match AfterLastColon(t[..|t| - 1])
      case None => None
      case Some(rest) => Some(rest + [t[|t| - 1]])
  }

  predicate EndsInPort(t: seq<byte>) {
    match AfterLastColon(t)
    case None => false
    case Some(rest) => rest != [] && forall b :: b in rest ==> IsDigit(b)
  }

  /** `validate_rp_id`, check by check. */
  function ValidateRpId(h: Hosts, raw: Text): Result<Text, RpIdError> {
    var trimmed := Trim(raw);
    if trimmed == [] then Err(EmptyId)
    else if Contains(trimmed, [COLON, SLASH, SLASH]) then Err(HasScheme)
    else if SLASH in trimmed then Err(HasPath)
    else if EndsInPort(trimmed) then Err(HasPort)
    else if [STAR, DOT] <= trimmed || [STAR] <= trimmed then Err(IsWildcard)
    else if trimmed[|trimmed| - 1] == DOT then Err(TrailingDot)
    else
      var normalized := Normalize(trimmed);
      if h.isIpAddress(normalized) then Err(IpAddress)
      else if !DnsName(normalized) then Err(InvalidDnsName)
      else if DOT !in normalized then Err(SingleLabel)
      else if h.isPublicSuffix(normalized) then Err(PublicSuffix)
      else Ok(normalized)
  }

  /** `validate_agent_rp_rule_id`. */
  function ValidateRuleId(h: Hosts, raw: Text): Result<Text, RpIdError> {
    var trimmed := Trim(raw);
    if trimmed == ANY_RP_ID then Ok(ANY_RP_ID) else ValidateRpId(h, trimmed)
  }

  /** The identifiers `validate_rp_id` is meant to return. */
  predicate IsRpId(h: Hosts, t: Text) {
    DnsName(t) && DOT in t && !h.isIpAddress(t) && !h.isPublicSuffix(t)
  }

  // ----- The bytes of a DNS name -----

  lemma LabelsUnfold(t: seq<byte>)
    requires t != []
    ensures var rest := Labels(t[1..]);
      Labels(t) == if t[0] == DOT then [[]] + rest else [[t[0]] + rest[0]] + rest[1..]
  {}

  lemma {:induction false} LabelsBytes(t: seq<byte>, i: nat)
    requires i < |t| && t[i] != DOT
    ensures exists l :: l in Labels(t) && t[i] in l
  {
    hide Labels;
    LabelsUnfold(t);
    var rest := Labels(t[1..]);
    var r := Labels(t);
    if i == 0 {
      assert r[0] in r && t[0] in r[0];
    } else {
      LabelsBytes(t[1..], i - 1);
      var l :| l in rest && t[i] in l;
      var k :| 0 <= k < |rest| && rest[k] == l;
      if t[0] == DOT {
        assert r[k + 1] == l;
      } else {
        assert k > 0 ==> r[k] == l;
        assert k == 0 ==> t[i] in r[0];
      }
    }
  }

  lemma {:induction false} LabelsEndEmpty(t: seq<byte>)
    requires t != [] && t[|t| - 1] == DOT
    ensures [] in Labels(t)[1..]
  {
    LabelsUnfold(t);
    var rest := Labels(t[1..]);
    assert |t| == 1 ==> rest == [[]];
    hide Labels;
    if |t| == 1 {
      assert Labels(t)[1..] == rest;
      assert rest[0] in rest;
    } else {
      LabelsEndEmpty(t[1..]);
      assert forall l :: l in rest[1..] ==> l in rest;
      assert Labels(t)[1..] == if t[0] == DOT then rest else rest[1..];
    }
  }

  lemma DnsNameBytes(t: seq<byte>)
    requires DnsName(t)
    ensures forall i :: 0 <= i < |t| ==> IsLabelByte(t[i]) || t[i] == DOT
    ensures t != [] && t[|t| - 1] != DOT
  {
    hide Labels;
    forall i | 0 <= i < |t|
      ensures IsLabelByte(t[i]) || t[i] == DOT
    {
      if t[i] != DOT {
        LabelsBytes(t, i);
      }
    }
    if t[|t| - 1] == DOT {
      LabelsEndEmpty(t);
      assert forall l :: l in Labels(t)[1..] ==> l in Labels(t);
    }
  }

  lemma {:induction false} NoColonNoPort(t: seq<byte>)
    requires COLON !in t
    ensures AfterLastColon(t) == None
  {
    if t != [] {
      assert t[|t| - 1] in t;
      NoColonNoPort(t[..|t| - 1]);
    }
  }

  lemma {:induction false} ContainsByte(t: seq<byte>, part: seq<byte>, b: byte)
    requires Contains(t, part) && b in part
    ensures b in t
  {
    if !(part <= t) {
      ContainsByte(t[1..], part, b);
    }
  }

  lemma TrimIdempotent(t: seq<byte>)
    ensures Trim(Trim(t)) == Trim(t)
  {}

  /** If the lower-case form is a DNS name, none of the checks on the raw form fails. */
  lemma EarlyChecksPass(trimmed: seq<byte>)
    requires DnsName(Lower(trimmed))
    ensures trimmed != [] && trimmed[|trimmed| - 1] != DOT && trimmed[0] != STAR
    ensures SLASH !in trimmed && !EndsInPort(trimmed) && !Contains(trimmed, [COLON, SLASH, SLASH])
  {
    hide DnsName, Contains, AfterLastColon;
    var lower := Lower(trimmed);
    DnsNameBytes(lower);
    forall i | 0 <= i < |trimmed|
      ensures trimmed[i] != SLASH && trimmed[i] != COLON && trimmed[i] != STAR
    {
      assert IsLabelByte(lower[i]) || lower[i] == DOT;
    }
    NoColonNoPort(trimmed);
    if Contains(trimmed, [COLON, SLASH, SLASH]) {
      ContainsByte(trimmed, [COLON, SLASH, SLASH], SLASH);
    }
  }

  /**
   `validate_rp_id` accepts exactly what normalizes to a multi-label DNS name that
   is neither an address nor a public suffix, and returns the normalized form. The
   checks for schemes, paths, ports, wildcards and trailing dots only choose the
   error.
   */
  lemma ValidateRpIdExact(h: Hosts, raw: Text)
    ensures ValidateRpId(h, raw).Ok? <==> IsRpId(h, Normalize(raw))
    ensures ValidateRpId(h, raw).Ok? ==> ValidateRpId(h, raw).value == Normalize(raw)
  {
    var trimmed := Trim(raw);
    TrimIdempotent(raw);
    assert Normalize(trimmed) == Normalize(raw) == Lower(trimmed);
    if DnsName(Lower(trimmed)) {
      EarlyChecksPass(trimmed);
    }
  }

  lemma ValidateRpIdIdempotent(h: Hosts, raw: Text)
    requires ValidateRpId(h, raw).Ok?
    ensures ValidateRpId(h, ValidateRpId(h, raw).value) == ValidateRpId(h, raw)
  {
    var id := ValidateRpId(h, raw).value;
    ValidateRpIdExact(h, raw);
    NormalizeIdempotent(raw);
    ValidateRpIdExact(h, id);
  }

  lemma AnyIsNotAnRpId(h: Hosts)
    ensures !IsRpId(h, ANY_RP_ID)
  {}

  lemma NormalizesToAny(raw: Text)
    ensures Normalize(raw) == ANY_RP_ID <==> Trim(raw) == ANY_RP_ID
  {}

  /** Rule ids are RP ids or the wildcard, and are likewise normalized. */
  lemma ValidateRuleIdExact(h: Hosts, raw: Text)
    ensures ValidateRuleId(h, raw).Ok? <==> Normalize(raw) == ANY_RP_ID || IsRpId(h, Normalize(raw))
    ensures ValidateRuleId(h, raw).Ok? ==> ValidateRuleId(h, raw).value == Normalize(raw)
  {
    NormalizesToAny(raw);
    TrimIdempotent(raw);
    ValidateRpIdExact(h, Trim(raw));
  }

  // ----- What the checks look at -----

  predicate OccursAt(t: seq<byte>, part: seq<byte>, i: nat) {
    i + |part| <= |t| && t[i..i + |part|] == part
  }

  lemma {:induction false} ContainsExact(t: seq<byte>, part: seq<byte>)
    ensures Contains(t, part) <==> exists i :: OccursAt(t, part, i)
  {
    if part <= t {
      assert OccursAt(t, part, 0);
    } else if t != [] {
      ContainsExact(t[1..], part);
      forall i: nat | i < |t|
        ensures OccursAt(t, part, i + 1) <==> OccursAt(t[1..], part, i)
      {
        if i + 1 + |part| <= |t| {
          assert t[1..][i..i + |part|] == t[i + 1..i + 1 + |part|];
        }
      }
      if i: nat :| OccursAt(t, part, i) {
        assert i > 0;
        assert OccursAt(t[1..], part, i - 1);
      }
      if i: nat :| OccursAt(t[1..], part, i) {
        assert OccursAt(t, part, i + 1);
      }
    }
  }

  function JoinDots(labels: seq<seq<byte>>): seq<byte>
    requires labels != []
  {
    if |labels| == 1 then labels[0] else labels[0] + [DOT] + JoinDots(labels[1..])
  }

  /** Splitting at dots: the labels hold none, and dots between them give the text back. */
  lemma {:induction false} LabelsExact(t: seq<byte>)
    ensures JoinDots(Labels(t)) == t && forall l :: l in Labels(t) ==> DOT !in l
  {
    if t != [] {
      LabelsUnfold(t);
      LabelsExact(t[1..]);
      var rest, r := Labels(t[1..]), Labels(t);
      hide Labels;
      assert t == [t[0]] + t[1..];
      if t[0] == DOT {
        assert r[1..] == rest && r[0] == [];
        assert [] + [DOT] == [DOT];
      } else {
        assert r[1..] == rest[1..] && r[0] == [t[0]] + rest[0];
        assert |rest| > 1 ==> r[0] + [DOT] + JoinDots(rest[1..]) == [t[0]] + (rest[0] + [DOT] + JoinDots(rest[1..]));
        forall l | l in r
          ensures DOT !in l
        {
          assert rest[0] in rest;
        }
      }
    }
  }

  predicate PortAt(t: seq<byte>, k: nat) {
    k < |t| - 1 && t[k] == COLON && forall i :: k < i < |t| ==> IsDigit(t[i])
  }

  lemma {:induction false} AfterLastColonExact(t: seq<byte>)
    ensures AfterLastColon(t).None? <==> COLON !in t
    ensures AfterLastColon(t).Some? ==>
      var rest := AfterLastColon(t).value;
      |rest| < |t| && t[|t| - |rest| - 1] == COLON && t[|t| - |rest|..] == rest && COLON !in rest
  {
    if t != [] {
      var init, last := t[..|t| - 1], t[|t| - 1];
      assert t == init + [last];
      AfterLastColonExact(init);
    }
  }

  /** A text ends in a port exactly when it ends in a colon and at least one digit. */
  lemma EndsInPortExact(t: seq<byte>)
    ensures EndsInPort(t) <==> exists k :: PortAt(t, k)
  {
    AfterLastColonExact(t);
    hide AfterLastColon;
    if EndsInPort(t) {
      var rest := AfterLastColon(t).value;
      var k := |t| - |rest| - 1;
      assert forall i :: k < i < |t| ==> t[i] == rest[i - k - 1];
      assert PortAt(t, k);
    }
    if k: nat :| PortAt(t, k) {
      assert t[k] in t;
      var rest := AfterLastColon(t).value;
      var m := |t| - |rest| - 1;
      assert forall i :: m < i < |t| ==> t[i] == rest[i - m - 1] && t[i] in rest;
      assert m == k;
    }
  }

  /** The error reported is true of the identifier. */
  lemma RpIdErrorIsTrue(h: Hosts, raw: Text)
    requires ValidateRpId(h, raw).Err?
    ensures var t := Trim(raw);
      match ValidateRpId(h, raw).error
      case EmptyId => t == []
      case HasScheme => exists i :: OccursAt(t, [COLON, SLASH, SLASH], i)
      case HasPath => SLASH in t
      case HasPort => exists k :: PortAt(t, k)
      case IsWildcard => t != [] && t[0] == STAR
      case TrailingDot => t != [] && t[|t| - 1] == DOT
      case IpAddress => h.isIpAddress(Normalize(raw))
      case InvalidDnsName => !DnsName(Normalize(raw))
      case SingleLabel => DOT !in Normalize(raw)
      case PublicSuffix => h.isPublicSuffix(Normalize(raw))
  {
    hide Contains, EndsInPort, DnsName, Trim;
    var t := Trim(raw);
    TrimIdempotent(raw);
    ContainsExact(t, [COLON, SLASH, SLASH]);
    EndsInPortExact(t);
  }

  /** A label: 1 to 63 ASCII letters, digits and hyphens, with no hyphen at either end. */
  predicate IsLabel(l: seq<byte>) {
    && 1 <= |l| < 64
    && (forall i :: 0 <= i < |l| ==>
          || 'a' as int <= l[i] <= 'z' as int || 'A' as int <= l[i] <= 'Z' as int
          || '0' as int <= l[i] <= '9' as int || l[i] == '-' as int)
    && l[0] != '-' as int && l[|l| - 1] != '-' as int
  }

  lemma LabelOkExact(l: seq<byte>)
    ensures LabelOk(l) <==> IsLabel(l)
  {
    assert forall i :: 0 <= i < |l| ==> l[i] in l;
  }

  lemma {:induction false} LabelsOfJoin(labels: seq<seq<byte>>)
    requires labels != [] && forall i :: 0 <= i < |labels| ==> DOT !in labels[i]
    ensures Labels(JoinDots(labels)) == labels
    decreases |labels|, |labels[0]|
  {
    hide Labels;
    var l := labels[0];
    if l != [] {
      var shorter := [l[1..]] + labels[1..];
      LabelsOfJoin(shorter);
      JoinDotsCons(l, labels[1..]);
      assert labels == [l] + labels[1..] && l == [l[0]] + l[1..];
      LabelsUnfold(JoinDots(labels));
      assert l[0] in l;
    } else if |labels| == 1 {
      NoLabels();
    } else {
      LabelsOfJoin(labels[1..]);
      assert JoinDots(labels) == [DOT] + JoinDots(labels[1..]);
      LabelsUnfold(JoinDots(labels));
      assert labels == [[]] + labels[1..];
    }
  }

  lemma NoLabels()
    ensures Labels([]) == [[]]
  {}

  lemma JoinDotsCons(l: seq<byte>, rest: seq<seq<byte>>)
    requires l != []
    ensures JoinDots([l] + rest) == [l[0]] + JoinDots([l[1..]] + rest)
  {
    assert ([l] + rest)[1..] == rest && ([l[1..]] + rest)[1..] == rest;
    assert l == [l[0]] + l[1..];
  }

  /** The DNS names are exactly labels joined by dots. */
  lemma DnsNameExact(t: seq<byte>)
    ensures DnsName(t) <==> exists labels :: IsName(t, labels)
  {
    LabelsExact(t);
    forall l: seq<byte>
      ensures LabelOk(l) <==> IsLabel(l)
    {
      LabelOkExact(l);
    }
    hide Labels, LabelOk, IsLabel, JoinDots;
    if DnsName(t) {
      assert IsName(t, Labels(t));
    }
    if labels :| IsName(t, labels) {
      NameLabels(t, labels);
    }
  }

  ghost predicate IsName(t: seq<byte>, labels: seq<seq<byte>>) {
    labels != [] && t == JoinDots(labels) && forall i :: 0 <= i < |labels| ==> IsLabel(labels[i])
  }

  lemma NameLabels(t: seq<byte>, labels: seq<seq<byte>>)
    requires IsName(t, labels)
    ensures Labels(t) == labels && t != []
  {
    forall i | 0 <= i < |labels|
      ensures DOT !in labels[i]
    {
      assert IsLabel(labels[i]);
    }
    LabelsOfJoin(labels);
    assert IsLabel(labels[0]);
    JoinDotsCons(labels[0], labels[1..]);
    assert labels == [labels[0]] + labels[1..];
  }
}
