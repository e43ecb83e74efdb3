/** Resource names on OCP Virtualization (compute/openshift.py). */
module K8sNames {
  import opened Basics

  predicate LabelChar(c: char) { 'a' <= c <= 'z' || '0' <= c <= '9' || c == '-' }

  predicate LabelChars(s: string) { forall i :: 0 <= i < |s| ==> LabelChar(s[i]) }

  /** A DNS label: section 2.1 of RFC 1123, section 2.3.4 of RFC 1035 for the length. */
  predicate IsLabel(s: string) {
    1 <= |s| <= 63 && LabelChars(s) && s[0] != '-' && s[|s| - 1] != '-'
  }

  predicate NoDoubleHyphen(s: string) { forall i :: 0 <= i < |s| - 1 ==> !(s[i] == '-' && s[i + 1] == '-') }

  /** re.sub("[^a-z0-9-]", "-"), which also covers the replacement of "_" and ".". */
  function Rewrite(s: string): (r: string)
    ensures |r| == |s| && forall i :: 0 <= i < |s| ==> r[i] == if LabelChar(s[i]) then s[i] else '-'
  {
    if s == "" then "" else [if LabelChar(s[0]) then s[0] else '-'] + Rewrite(s[1..])
  }

  /** re.sub("-+", "-") */
  function Collapse(s: string): (r: string)
    ensures NoDoubleHyphen(r)
    ensures LabelChars(s) ==> LabelChars(r)
    ensures s != "" ==> r != "" && r[0] == s[0]
  {
    if s == "" then ""
    else if |s| > 1 && s[0] == '-' && s[1] == '-' then Collapse(s[1..])
    else [s[0]] + Collapse(s[1..])
  }

  function LStrip(s: string): (r: string)
    ensures NoDoubleHyphen(s) ==> NoDoubleHyphen(r)
    ensures LabelChars(s) ==> LabelChars(r)
    ensures r != "" ==> r[0] != '-'
  {
    if s != "" && s[0] == '-' then LStrip(s[1..]) else s
  }

  function RStrip(s: string): (r: string)
    ensures r <= s
    ensures r != "" ==> r[|r| - 1] != '-'
    ensures forall i :: |r| <= i < |s| ==> s[i] == '-'
  {
    StripRight(s, c => c == '-')
  }

  function Take(s: string, n: nat): string { if |s| <= n then s else s[..n] }

  /** _sanitize_k8s_name; `lower` is the interpreter's str.lower. */
  function Sanitize(lower: string -> string, name: string): string {
    var stripped := RStrip(LStrip(Collapse(Rewrite(lower(name)))));
    var cut := RStrip(Take(stripped, 63));
    if cut == "" then "ceph-vm" else cut
  }

  /** Whatever the name and whatever lower-casing does, the result is a DNS label
      without two hyphens in a row. */
  lemma SanitizeGivesLabel(lower: string -> string, name: string)
    ensures IsLabel(Sanitize(lower, name)) && NoDoubleHyphen(Sanitize(lower, name))
  {
    var a := LStrip(Collapse(Rewrite(lower(name))));
    var b := RStrip(a);
    var c := RStrip(Take(b, 63));
    if c != "" { assert c[0] == b[0] == a[0]; }
  }

  /** str.lower leaves strings of lower-case letters, digits and hyphens alone. */
  ghost predicate KeepsLabels(lower: string -> string) { forall s :: LabelChars(s) ==> lower(s) == s }

  lemma {:induction false} CollapseFixes(s: string)
    requires NoDoubleHyphen(s)
    ensures Collapse(s) == s
  {
    if s != "" { CollapseFixes(s[1..]); }
  }

  lemma RewriteFixes(s: string)
    requires LabelChars(s)
    ensures Rewrite(s) == s
  {
  }

  lemma LabelStays(lower: string -> string, s: string)
    requires KeepsLabels(lower) && IsLabel(s) && NoDoubleHyphen(s)
    ensures Sanitize(lower, s) == s
  {
    RewriteFixes(s);
    CollapseFixes(s);
    assert LStrip(s) == s;
    RStripFixes(s);
    assert Take(s, 63) == s;
  }

  /** The names the function leaves alone are exactly these labels. */
  lemma SanitizeFixpoints(lower: string -> string, s: string)
    requires KeepsLabels(lower)
    ensures Sanitize(lower, s) == s <==> IsLabel(s) && NoDoubleHyphen(s)
  {
    SanitizeGivesLabel(lower, s);
    if IsLabel(s) && NoDoubleHyphen(s) { LabelStays(lower, s); }
  }

  lemma SanitizeIdempotent(lower: string -> string, name: string)
    requires KeepsLabels(lower)
    ensures Sanitize(lower, Sanitize(lower, name)) == Sanitize(lower, name)
  {
    SanitizeGivesLabel(lower, name);
    SanitizeFixpoints(lower, Sanitize(lower, name));
  }

  // ----- cloud-init Secrets ------------------------------------------------

  const SUFFIX := "-cloudinit"

  /** _cloudinit_secret_name */
  function SecretName(vm: string): string { RStrip(Take(vm + SUFFIX, 63)) }

  lemma RStripFixes(s: string)
    requires s == "" || s[|s| - 1] != '-'
    ensures RStrip(s) == s
  {
  }

  /** How much of the suffix survives the cut to 63 characters. */
  function Kept(vm: string): nat {
    if |vm| <= 53 then 10 else if |vm| >= 62 then 0 else 63 - |vm|
  }

  lemma SecretShape(vm: string)
    requires IsLabel(vm)
    ensures SecretName(vm) == vm + SUFFIX[..Kept(vm)]
    ensures |vm| <= 53 ==> SecretName(vm) == vm + "-cloudinit"
    ensures 54 <= |vm| <= 61 ==> SecretName(vm) == (vm + "-cloudinit")[..63]
    ensures 62 <= |vm| ==> SecretName(vm) == vm
  {
    if |vm| <= 53 { assert SUFFIX[..10] == SUFFIX; }
    if |vm| == 62 {
      assert Take(vm + SUFFIX, 63) == vm + "-";
      assert (vm + "-")[..62] == vm;
      RStripFixes(vm);
    } else if |vm| == 63 {
      assert Take(vm + SUFFIX, 63) == vm;
      RStripFixes(vm);
    } else {
      assert Take(vm + SUFFIX, 63) == vm + SUFFIX[..Kept(vm)];
      RStripFixes(vm + SUFFIX[..Kept(vm)]);
    }
  }

  /** `longer` is the Secret name of `shorter` as well as its own. */
  ghost predicate Clash(shorter: string, longer: string) {
    && |longer| >= 62 && |shorter| < |longer| && |shorter| + Kept(shorter) == |longer|
    && longer == shorter + SUFFIX[..Kept(shorter)]
  }

  /** A Secret name is itself a label, so it is always a legal object name. */
  lemma SecretIsLabel(vm: string)
    requires IsLabel(vm)
    ensures IsLabel(SecretName(vm)) && vm <= SecretName(vm)
  {
    SecretShape(vm);
  }

  lemma SecretsDiffer(a: string, b: string)
    requires IsLabel(a) && IsLabel(b) && |a| < |b|
    ensures SecretName(a) == SecretName(b) <==> Clash(a, b)
  {
    SecretShape(a);
    SecretShape(b);
    if |b| <= 61 {
      assert (b + SUFFIX[..Kept(b)])[|b|] == '-';
      if |b| - |a| < Kept(a) { assert (a + SUFFIX[..Kept(a)])[|b|] == SUFFIX[|b| - |a|]; }
    }
  }

  /** Two VMs share a Secret exactly when they are the same or their names clash. */
  lemma SecretsExactly(a: string, b: string)
    requires IsLabel(a) && IsLabel(b)
    ensures SecretName(a) == SecretName(b) <==> a == b || Clash(a, b) || Clash(b, a)
  {
    if |a| < |b| { SecretsDiffer(a, b); }
    else if |b| < |a| { SecretsDiffer(b, a); }
    else {
      SecretShape(a);
      SecretShape(b);
      assert SecretName(a)[..|a|] == a && SecretName(b)[..|b|] == b;
    }
  }

  /** So Secret names are injective on VM names of up to 61 characters... */
  lemma SecretsInjective(a: string, b: string)
    requires IsLabel(a) && IsLabel(b) && |a| <= 61 && |b| <= 61
    ensures SecretName(a) == SecretName(b) ==> a == b
  {
    SecretsExactly(a, b);
  }

  /** ... and 61 is sharp: the 62-character name that extends a 52-character one by the
      suffix shares its Secret. */
  lemma SecretsClashAt62(vm: string)
    requires IsLabel(vm) && |vm| == 52
    ensures IsLabel(vm + SUFFIX) && SecretName(vm + SUFFIX) == SecretName(vm)
  {
    SecretsExactly(vm, vm + SUFFIX);
  }

  // ----- DataVolumes -------------------------------------------------------

  function Digit(d: nat): char
    requires d < 10
  {
    "0123456789"[d]
  }

  function Decimal(n: nat): (s: string)
    ensures s != "" && forall i :: 0 <= i < |s| ==> '0' <= s[i] <= '9'
  {
    if n < 10 then [Digit(n)] else Decimal(n / 10) + [Digit(n % 10)]
  }

  lemma SplitLast(a: string, c: char, b: string, d: char)
    requires a + [c] == b + [d]
    ensures a == b && c == d
  {
    assert (a + [c])[..|a|] == a && (b + [d])[..|b|] == b;
    assert (a + [c])[|a|] == c && (b + [d])[|b|] == d;
  }

  lemma {:induction false} DecimalInjective(m: nat, n: nat)
    requires Decimal(m) == Decimal(n)
    ensures m == n
  {
    if m < 10 && n < 10 {
      assert Decimal(m)[0] == Decimal(n)[0];
    } else if m >= 10 && n >= 10 {
      SplitLast(Decimal(m / 10), Digit(m % 10), Decimal(n / 10), Digit(n % 10));
      DecimalInjective(m / 10, n / 10);
    }
  }

  const VOL := "-vol-"

  /** The DataVolume of disk `idx`; non_root_datavolume_names lists them for idx < count. */
  function VolumeName(vm: string, idx: nat): string { vm + VOL + Decimal(idx) }

  function VolumeNames(vm: string, count: nat): seq<string> { seq(count, idx requires 0 <= idx => VolumeName(vm, idx)) }

  function RootName(vm: string): string { vm + "-root" }

  ghost predicate NoHyphen(s: string) { forall i :: 0 <= i < |s| ==> s[i] != '-' }

  lemma LastHyphenDiffers(p: string, q: string, d: string, e: string)
    requires |p| < |q| && q[|q| - 1] == '-' && NoHyphen(d)
    ensures p + d != q + e
  {
    assert (q + e)[|q| - 1] == '-';
    if |q| <= |p + d| { assert (p + d)[|q| - 1] == d[|q| - 1 - |p|]; }
  }

  /** Cutting behind the last hyphen is unambiguous. */
  lemma HyphenTail(p: string, q: string, d: string, e: string)
    requires p != "" && q != "" && p[|p| - 1] == '-' && q[|q| - 1] == '-' && NoHyphen(d) && NoHyphen(e)
    requires p + d == q + e
    ensures p == q && d == e
  {
    if |p| < |q| { LastHyphenDiffers(p, q, d, e); }
    if |q| < |p| { LastHyphenDiffers(q, p, e, d); }
    assert (p + d)[..|p|] == p && (q + e)[..|p|] == q;
    assert (p + d)[|p|..] == d && (q + e)[|p|..] == e;
  }

  /** (vm, index) to DataVolume name is injective, whatever the VM names look like. */
  lemma VolumeNameInjective(vm: string, idx: nat, vm': string, idx': nat)
    requires VolumeName(vm, idx) == VolumeName(vm', idx')
    ensures vm == vm' && idx == idx'
  {
    HyphenTail(vm + VOL, vm' + VOL, Decimal(idx), Decimal(idx'));
    DecimalInjective(idx, idx');
    assert (vm + VOL)[..|vm|] == vm && (vm' + VOL)[..|vm'|] == vm';
  }

  /** No non-root DataVolume takes the name of a root disk. */
  lemma VolumeNeverRoot(vm: string, idx: nat, vm': string)
    ensures VolumeName(vm, idx) != RootName(vm')
  {
    var v, r := VolumeName(vm, idx), RootName(vm');
    assert v[|v| - 1] == Decimal(idx)[|Decimal(idx)| - 1];
    assert r[|r| - 1] == 't';
  }
}
