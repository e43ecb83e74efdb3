/** Mon addresses and the monmap run (utility/odf_defaults.py), part by part and mon by mon. */
module MonExact {
  import opened Basics
  import opened Options
  import opened MonAddress
  import opened Monmap

  // ----- reading an address ------------------------------------------------

  ghost predicate AllIn(s: string, drop: char -> bool) { forall i :: 0 <= i < |s| ==> drop(s[i]) }

  ghost predicate BareEnds(s: string, drop: char -> bool) { s != "" ==> !drop(s[0]) && !drop(s[|s| - 1]) }

  lemma {:induction false} StripLeftParts(a: string, m: string, drop: char -> bool)
    requires AllIn(a, drop) && (m != "" ==> !drop(m[0]))
    ensures StripLeft(a + m, drop) == m
  {
    if a == "" {
      assert a + m == m;
    } else {
      assert (a + m)[1..] == a[1..] + m;
      StripLeftParts(a[1..], m, drop);
    }
  }

  lemma {:induction false} StripRightParts(m: string, b: string, drop: char -> bool)
    requires AllIn(b, drop) && (m != "" ==> !drop(m[|m| - 1]))
    ensures StripRight(m + b, drop) == m
  {
    if b == "" {
      assert m + b == m;
    } else {
      assert (m + b)[..|m + b| - 1] == m + b[..|b| - 1];
      StripRightParts(m, b[..|b| - 1], drop);
    }
  }

  lemma StripParts(a: string, m: string, b: string, drop: char -> bool)
    requires AllIn(a, drop) && AllIn(b, drop) && BareEnds(m, drop) && m != ""
    ensures Strip(a + m + b, drop) == m
  {
    assert a + m + b == a + (m + b);
    StripLeftParts(a, m + b, drop);
    StripRightParts(m, b, drop);
  }

  lemma {:induction false} BeforeParts(a: string, c: char, b: string)
    requires c !in a
    ensures Before(a + [c] + b, c) == a && Before(a, c) == a
  {
    if a != "" {
      assert (a + [c] + b)[1..] == a[1..] + [c] + b && a[0] in a && forall x <- a[1..] :: x in a;
      BeforeParts(a[1..], c, b);
    }
  }

  /** The parts of an address: white space and brackets at its ends, a tag, the host, what is behind
      its last colon, and what is behind the first slash. */
  datatype Parts = Parts(space: string, open: string, tag: string, host: string, port: Option<string>,
                         nonce: Option<string>, close: string, spaceBehind: string) {
    function Text(): string { host + match port case None => "" case Some(p) => ":" + p }
    function Untag(): string { Text() + match nonce case None => "" case Some(n) => "/" + n }
    function Core(): string { tag + Untag() }
    function Address(): string { space + (open + Core() + close) + spaceBehind }
  }

  ghost predicate WellFormed(p: Parts) {
    && AllIn(p.space, Space) && AllIn(p.spaceBehind, Space) && AllIn(p.open, Bracket) && AllIn(p.close, Bracket)
    && p.Core() != "" && BareEnds(p.Core(), Bracket) && BareEnds(p.open + p.Core() + p.close, Space)
    && (p.tag == "v1:" || p.tag == "v2:" || (p.tag == "" && !Tagged(p.Core())))
    && '/' !in p.Text()
    && (match p.port case None => ':' !in p.host case Some(port) => ':' !in port)
  }

  /** Of any such address the host is read. */
  lemma HostOfParts(p: Parts)
    requires WellFormed(p)
    ensures IpFrom(p.Address()) == Some(p.host)
  {
    var inner := p.open + p.Core() + p.close;
    StripParts(p.space, inner, p.spaceBehind, Space);
    StripParts(p.open, p.Core(), p.close, Bracket);
    UntagParts(p);
    TextParts(p);
    assert p.Address() != "";
  }

  lemma UntagParts(p: Parts)
    requires WellFormed(p)
    ensures Untagged(p.Core()) == p.Untag()
  {
    WithoutTag(p.tag, p.Untag());
  }

  lemma WithoutTag(tag: string, rest: string)
    requires tag == "v1:" || tag == "v2:" || (tag == "" && !Tagged(rest))
    ensures Untagged(tag + rest) == rest
  {
    assert (tag + rest)[|tag|..] == rest && (tag + rest)[..|tag|] == tag;
  }

  lemma TextParts(p: Parts)
    requires WellFormed(p)
    ensures Before(p.Untag(), '/') == p.Text() && HostOf(p.Text()) == p.host
  {
    CutAtSlash(p.Text(), p.nonce);
    HostBeforePort(p.host, p.port);
  }

  lemma CutAtSlash(text: string, nonce: Option<string>)
    requires '/' !in text
    ensures Before(text + match nonce case None => "" case Some(n) => "/" + n, '/') == text
  {
    BeforeParts(text, '/', if nonce.Some? then nonce.value else "");
    if nonce.Some? {
      assert text + ("/" + nonce.value) == text + ['/'] + nonce.value;
    } else {
      assert text + "" == text;
    }
  }

  lemma HostBeforePort(host: string, port: Option<string>)
    requires match port case None => ':' !in host case Some(p) => ':' !in p
    ensures HostOf(host + match port case None => "" case Some(p) => ":" + p) == host
  {
    if port.None? {
      assert host + "" == host;
      BeforeParts(host, ':', "");
    } else {
      var text := host + [':'] + port.value;
      assert host + (":" + port.value) == text && text[|host|] == ':';
      LastOf(host, port.value, ':');
      if HostPort(text) { PatternAgreesWithLastResort(text); }
    }
  }

  // ----- the run, mon by mon -----------------------------------------------

  /** The mon after set-addrs NAME [v2:HOST:3300/0]. */
  function OnlyV2(name: string, host: string): Mon {
    Mon(name, [Addr("v2", host + ":3300")], host + ":3300/0", host + ":3300/0")
  }

  /** Mon i after the run, whatever failed before it: rewritten if it has a name and a readable
      address and the command is applied, and else as it was. */
  lemma AppliedEach(mons: seq<Mon>, faults: nat -> Fault, i: nat)
    requires UniqueNames(mons) && i < |mons|
    ensures var host := NameAndIp(mons[i]);
            Applied(mons, mons, faults).0[i] ==
            if host.Some? && !faults(i).Rejected? then OnlyV2(mons[i].name, host.value.1) else mons[i]
  {
    AppliedUpTo(mons, mons, faults, i);
  }

  lemma {:induction false} AppliedUpTo(dump: seq<Mon>, mons: seq<Mon>, faults: nat -> Fault, i: nat)
    requires dump <= mons && UniqueNames(mons) && i < |mons|
    ensures var host := NameAndIp(mons[i]);
            Applied(dump, mons, faults).0[i] ==
            if i < |dump| && host.Some? && !faults(i).Rejected? then OnlyV2(mons[i].name, host.value.1) else mons[i]
  {
    if dump != [] {
      var n := |dump| - 1;
      var sofar := Applied(dump[..n], mons, faults);
      AppliedUpTo(dump[..n], mons, faults, i);
      AppliedLast(dump, mons, faults);
      assert dump[n] == mons[n] && |sofar.0| == |mons| && sofar.0[i].name == mons[i].name;
      AtTurn(mons, n, faults(n), sofar, i);
    }
  }

  lemma AtTurn(mons: seq<Mon>, n: nat, fault: Fault, sofar: Progress, i: nat)
    requires UniqueNames(mons) && n < |mons| == |sofar.0| && i < |mons| && sofar.0[i].name == mons[i].name
    ensures var host := NameAndIp(mons[n]);
            OneApplied(mons[n], n, fault, sofar).0[i] ==
            if i == n && host.Some? && !fault.Rejected? then OnlyV2(mons[n].name, host.value.1) else sofar.0[i]
  {
  }

  /** A mon for which a failure is reported, and which one. */
  predicate Fails(mon: Mon, fault: Fault) { NameAndIp(mon).None? || !fault.Fine? }

  function FailureOf(mon: Mon, n: nat): Failure {
    if NameAndIp(mon).None? then Unresolved(n) else SetFailed(mon.name)
  }

  /** What is reported of mon i, if anything. */
  function Reported(mon: Mon, i: nat, fault: Fault): Option<Failure> {
    if Fails(mon, fault) then Some(FailureOf(mon, i)) else None
  }

  function Reports(mons: seq<Mon>, faults: nat -> Fault): seq<Option<Failure>> {
    seq(|mons|, i requires 0 <= i < |mons| => Reported(mons[i], i, faults(i)))
  }

  /** r holds what there is of the steps, in order, and `at` tells where. */
  ghost predicate Present<T>(steps: seq<Option<T>>, at: seq<nat>, r: seq<T>) {
    && AscendingBelow(at, |steps|) && |r| == |at|
    && (forall i: nat :: i < |steps| ==> (i in at <==> steps[i].Some?))
    && forall k :: 0 <= k < |at| ==> at[k] < |steps| && Some(r[k]) == steps[at[k]]
  }

  lemma PresentMore<T>(steps: seq<Option<T>>, at: seq<nat>, r: seq<T>, x: Option<T>)
    requires Present(steps, at, r)
    ensures if x.Some? then Present(steps + [x], at + [|steps|], r + [x.value]) else Present(steps + [x], at, r)
  {
    OneMoreAscends(at, |steps|);
    assert |steps| !in at;
    forall i: nat | i < |steps| ensures (steps + [x])[i] == steps[i] {}
  }

  function AsSeq<T>(x: Option<T>): seq<T> { match x case None => [] case Some(v) => [v] }

  /** If each step adds what there is of it, the end holds what there is of all. */
  lemma {:induction false} AllPresent<T>(steps: seq<Option<T>>, sofar: seq<seq<T>>) returns (at: seq<nat>)
    requires |sofar| == |steps| + 1 && sofar[0] == []
    requires forall i :: 0 <= i < |steps| ==> sofar[i + 1] == sofar[i] + AsSeq(steps[i])
    ensures Present(steps, at, sofar[|steps|])
  {
    at := [];
    if steps != [] {
      var n := |steps| - 1;
      at := AllPresent(steps[..n], sofar[..n + 1]);
      PresentMore(steps[..n], at, sofar[n], steps[n]);
      assert steps == steps[..n] + [steps[n]] && sofar[n + 1] == sofar[n] + AsSeq(steps[n]);
      if steps[n].Some? { at := at + [n]; } else { assert sofar[n] + [] == sofar[n]; }
    }
  }

  /** The failures after the first i mons. */
  function FailuresAfter(mons: seq<Mon>, faults: nat -> Fault, i: nat): seq<Failure>
    requires i <= |mons|
  {
    Applied(mons[..i], mons, faults).1
  }

  function AllAfter(mons: seq<Mon>, faults: nat -> Fault): seq<seq<Failure>> {
    seq(|mons| + 1, i requires 0 <= i <= |mons| => FailuresAfter(mons, faults, i))
  }

  /** One failure for each mon without a name or a readable address, or whose command raises, in
      the order of the dump. */
  lemma FailuresExactly(mons: seq<Mon>, faults: nat -> Fault) returns (at: seq<nat>)
    ensures Present(Reports(mons, faults), at, Applied(mons, mons, faults).1)
  {
    var steps, sofar := Reports(mons, faults), AllAfter(mons, faults);
    forall i | 0 <= i < |mons| ensures sofar[i + 1] == sofar[i] + AsSeq(steps[i]) { TurnReports(mons, faults, i); }
    assert mons[..0] == [] && mons[..|mons|] == mons;
    at := AllPresent(steps, sofar);
  }

  lemma TurnReports(mons: seq<Mon>, faults: nat -> Fault, i: nat)
    requires i < |mons|
    ensures AllAfter(mons, faults)[i + 1] == AllAfter(mons, faults)[i] + AsSeq(Reports(mons, faults)[i])
  {
    AppliedMore(mons, i, faults);
    TurnFails(mons[i], i, faults(i), Applied(mons[..i], mons, faults));
  }

  lemma TurnFails(mon: Mon, n: nat, fault: Fault, sofar: Progress)
    ensures OneApplied(mon, n, fault, sofar).1 == sofar.1 + if Fails(mon, fault) then [FailureOf(mon, n)] else []
  {
  }

  /** Without a name there is no host. */
  lemma NameNeeded(mon: Mon)
    requires mon.name == ""
    ensures NameAndIp(mon).None?
  {
  }

  // ----- the check ---------------------------------------------------------

  ghost predicate Has(s: string, part: string) { exists front: string, back: string :: s == front + part + back }

  lemma IsPrefix(s: string, part: string, back: string)
    requires s == part + back
    ensures part <= s
  {
  }

  lemma {:induction false} ContainsExactly(s: string, part: string)
    ensures Contains(s, part) <==> Has(s, part)
  {
    if part <= s {
      assert s == "" + part + s[|part|..];
    } else if s != "" {
      ContainsExactly(s[1..], part);
      if Has(s[1..], part) {
        var front: string, back: string :| s[1..] == front + part + back;
        assert s == ([s[0]] + front) + part + back;
      }
      if Has(s, part) {
        var front: string, back: string :| s == front + part + back;
        if front == "" { IsPrefix(s, part, back); } else { assert s[1..] == front[1..] + part + back; }
      }
    }
  }

  function Public(mon: Mon): string { if mon.publicAddr != "" then mon.publicAddr else mon.addr }

  /** What is reported of one mon: of its address vector, if it has one, and else of the plain
      strings. */
  lemma MismatchesExactly(mon: Mon, x: Mismatch)
    ensures x in MonMismatches(mon) <==>
            match x
            case StillV1(name) => name == mon.name && exists a <- mon.vec :: a.kind == "v1"
            case MissingV2(name) => name == mon.name && mon.vec != [] && forall a <- mon.vec :: a.kind != "v2"
            case PublicV1(name) =>
              name == mon.name && mon.vec == [] && (Has(Public(mon), "v1:") || Has(Public(mon), ":6789"))
            case PublicNotV2(name) =>
              name == mon.name && mon.vec == [] && !Has(Public(mon), "v2:") && !Has(Public(mon), ":3300")
  {
    ContainsExactly(Public(mon), "v1:");
    ContainsExactly(Public(mon), ":6789");
    ContainsExactly(Public(mon), "v2:");
    ContainsExactly(Public(mon), ":3300");
  }
}
