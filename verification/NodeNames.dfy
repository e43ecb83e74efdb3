/** Node names as create_ocpvirt_ceph_nodes generates them (utility/utils.py), and the VM names
    that are left of them after sanitizing. */
module NodeNames {
  import opened Basics
  import opened K8sNames

  /** What all nodes of a run have in common. */
  datatype Naming = Naming(cluster: string, instance: string, runId: string)

  /** "-".join of the parts that are not empty. */
  function Join(parts: seq<string>): string {
    if parts == [] then "" else Hyphen(parts[0], Join(parts[1..]))
  }

  function Hyphen(a: string, b: string): string { if a == "" then b else if b == "" then a else a + "-" + b }

  function RoleTag(roles: set<string>): string {
    if "installer" in roles then "installer" else if "pool" in roles then "pool" else ""
  }

  function NodeKey(number: nat): string { "node" + Decimal(number) }

  /** generate_node_name */
  function GenerateNodeName(n: Naming, number: nat, roles: set<string>): string {
    Join([n.cluster, n.instance, n.runId, NodeKey(number), RoleTag(roles)])
  }

  function Part(s: string): string { if s == "" then "" else s + "-" }

  function Prefix(n: Naming): string { Part(n.cluster) + Part(n.instance) + Part(n.runId) }

  function Tag(roles: set<string>): string { if RoleTag(roles) == "" then "" else "-" + RoleTag(roles) }

  function Suffix(number: nat, roles: set<string>): string { NodeKey(number) + Tag(roles) }

  lemma JoinFive(a: string, b: string, c: string, d: string, e: string)
    ensures Join([a, b, c, d, e]) == Hyphen(a, Hyphen(b, Hyphen(c, Hyphen(d, e))))
  {
    assert [a, b, c, d, e][1..] == [b, c, d, e];
    assert [b, c, d, e][1..] == [c, d, e];
    assert [c, d, e][1..] == [d, e] && [d, e][1..] == [e] && [e][1..] == [];
    assert Join([e]) == e && Join([d, e]) == Hyphen(d, e) && Join([c, d, e]) == Hyphen(c, Hyphen(d, e));
  }

  /** The name is the common prefix, the node key and the tag of the role. */
  lemma NameParts(n: Naming, number: nat, roles: set<string>)
    ensures GenerateNodeName(n, number, roles) == Prefix(n) + Suffix(number, roles)
    ensures Suffix(number, roles) == "node" + Decimal(number) +
            if "installer" in roles then "-installer" else if "pool" in roles then "-pool" else ""
    ensures Prefix(n) == (if n.cluster == "" then "" else n.cluster + "-")
                       + (if n.instance == "" then "" else n.instance + "-")
                       + if n.runId == "" then "" else n.runId + "-"
  {
    JoinFive(n.cluster, n.instance, n.runId, NodeKey(number), RoleTag(roles));
    HyphenPrefix(n, NodeKey(number), RoleTag(roles));
  }

  lemma HyphenPrefix(n: Naming, key: string, tag: string)
    requires key != ""
    ensures Hyphen(n.cluster, Hyphen(n.instance, Hyphen(n.runId, Hyphen(key, tag)))) ==
            Prefix(n) + (key + if tag == "" then "" else "-" + tag)
  {
    var s := key + if tag == "" then "" else "-" + tag;
    assert Hyphen(key, tag) == s;
    HyphenPart(n.runId, s);
    HyphenPart(n.instance, Part(n.runId) + s);
    HyphenPart(n.cluster, Part(n.instance) + (Part(n.runId) + s));
    Regroup(Part(n.cluster), Part(n.instance), Part(n.runId), s);
  }

  lemma Regroup(a: string, b: string, c: string, d: string)
    ensures a + (b + (c + d)) == a + b + c + d
  {
  }

  lemma HyphenPart(a: string, rest: string)
    requires rest != ""
    ensures Hyphen(a, rest) == Part(a) + rest
  {
    assert a == "" ==> Part(a) + rest == rest;
  }

  // ----- what sanitizing leaves --------------------------------------------

  /** Lower-casing works part by part, up to the characters that are replaced anyway. */
  ghost predicate LowersInParts(lower: string -> string) {
    forall a, b :: LabelChars(b) ==> Rewrite(lower(a + b)) == Rewrite(lower(a)) + b
  }

  /** What sanitizing makes of the common prefix. */
  function Cleaned(lower: string -> string, n: Naming): string { LStrip(Collapse(Rewrite(lower(Prefix(n))))) }

  function VmName(lower: string -> string, n: Naming, number: nat, roles: set<string>): string {
    Sanitize(lower, GenerateNodeName(n, number, roles))
  }

  ghost predicate Tidy(s: string) { LabelChars(s) && NoDoubleHyphen(s) && s != "" && s[0] != '-' && s[|s| - 1] != '-' }

  lemma SuffixTidy(number: nat, roles: set<string>)
    ensures Tidy(Suffix(number, roles)) && Suffix(number, roles)[..4] == "node"
  {
    var key := NodeKey(number);
    assert forall i :: 4 <= i < |key| ==> key[i] == Decimal(number)[i - 4];
    TidyTag(key, RoleTag(roles));
    assert Suffix(number, roles)[..4] == key[..4];
  }

  lemma TidyTag(key: string, tag: string)
    requires key != "" && LabelChars(key) && NoHyphen(key) && LabelChars(tag) && NoHyphen(tag)
    ensures Tidy(key + if tag == "" then "" else "-" + tag)
  {
    var s := key + if tag == "" then "" else "-" + tag;
    forall i | 0 <= i < |s|
      ensures s[i] == if i < |key| then key[i] else if i == |key| then '-' else tag[i - |key| - 1]
    {
    }
  }

  /** What Collapse makes of the first character. */
  function Lead(t: string): string { if t == "" || (|t| > 1 && t[0] == '-' && t[1] == '-') then "" else [t[0]] }

  lemma CollapseStep(t: string)
    requires t != ""
    ensures Collapse(t) == Lead(t) + Collapse(t[1..])
  {
  }

  lemma LeadOfTwo(x: string, s: string)
    requires x != "" && s != "" && s[0] != '-'
    ensures Lead(x + s) == Lead(x) && (x + s)[1..] == x[1..] + s
  {
  }

  lemma {:induction false} CollapseTail(x: string, s: string)
    requires Tidy(s)
    ensures Collapse(x + s) == Collapse(x) + s
  {
    if x == "" {
      assert x + s == s;
      CollapseFixes(s);
    } else {
      CollapseStep(x + s);
      CollapseStep(x);
      LeadOfTwo(x, s);
      CollapseTail(x[1..], s);
      Joining(Lead(x), Collapse(x[1..]), s);
    }
  }

  lemma Joining(a: string, b: string, c: string)
    ensures a + (b + c) == a + b + c
  {
  }

  lemma {:induction false} LStripTail(x: string, s: string)
    requires Tidy(s)
    ensures LStrip(x + s) == LStrip(x) + s
  {
    if x == "" {
      assert x + s == s;
    } else if x[0] == '-' {
      assert (x + s)[1..] == x[1..] + s;
      LStripTail(x[1..], s);
    }
  }

  lemma {:induction false} RStripTail(a: string, x: string)
    requires a != "" && a[|a| - 1] != '-'
    ensures RStrip(a + x) == a + RStrip(x)
  {
    if x == "" {
      assert a + x == a;
    } else if x[|x| - 1] == '-' {
      assert (a + x)[..|a + x| - 1] == a + x[..|x| - 1];
      RStripTail(a, x[..|x| - 1]);
    }
  }

  /** Cleaning and trimming stop before a tidy end. */
  lemma CleanedTail(x: string, s: string)
    requires Tidy(s)
    ensures var whole := LStrip(Collapse(x)) + s;
            RStrip(LStrip(Collapse(x + s))) == whole && RStrip(Take(whole, 63)) != ""
  {
    CollapseTail(x, s);
    LStripTail(Collapse(x), s);
    TidyEnd(LStrip(Collapse(x)), s);
  }

  lemma TidyEnd(head: string, s: string)
    requires Tidy(s) && (head != "" ==> head[0] != '-')
    ensures RStrip(head + s) == head + s && RStrip(Take(head + s, 63)) != ""
  {
    var whole := head + s;
    assert whole[|whole| - 1] == s[|s| - 1] && whole[0] == (if head == "" then s[0] else head[0]);
    RStripFixes(whole);
    HeadStays(Take(whole, 63));
  }

  /** The VM name: the cleaned prefix and the node's own suffix, cut at 63 characters. */
  lemma VmNameShape(lower: string -> string, n: Naming, number: nat, roles: set<string>)
    requires LowersInParts(lower)
    ensures VmName(lower, n, number, roles) == RStrip(Take(Cleaned(lower, n) + Suffix(number, roles), 63))
  {
    var x, s := Rewrite(lower(Prefix(n))), Suffix(number, roles);
    NameParts(n, number, roles);
    SuffixTidy(number, roles);
    CleanedTail(x, s);
  }

  lemma HeadStays(s: string)
    requires s != "" && s[0] != '-'
    ensures RStrip(s) != ""
  {
    var r := RStrip(s);
    assert forall i :: |r| <= i < |s| ==> s[i] == '-';
  }

  // ----- when two nodes get one VM name ------------------------------------

  /** The digits of the node number that still fit in. */
  function DigitsLeft(cleaned: string): nat { if |cleaned| >= 59 then 0 else 59 - |cleaned| }

  ghost predicate Hyphenated(y: string) { y == "" || y[0] == '-' }

  /** What is left of number and tag: the digits that fit, and behind all digits maybe a tag. */
  lemma NumberAndTag(number: nat, roles: set<string>, d: nat) returns (y: string)
    requires d > 0
    ensures RStrip(Take(Decimal(number) + Tag(roles), d)) == Take(Decimal(number), d) + y
    ensures Hyphenated(y) && (|Decimal(number)| >= d ==> y == "")
  {
    var digits, tag := Decimal(number), Tag(roles);
    if |digits| >= d {
      y := "";
      assert Take(digits + tag, d) == digits[..d];
      RStripFixes(digits[..d]);
    } else {
      var t := Take(tag, d - |digits|);
      assert Take(digits + tag, d) == digits + t;
      RStripTail(digits, t);
      y := RStrip(t);
    }
  }

  lemma {:induction false} HyphenHead(a: string, x: string)
    requires NoHyphen(a) && Hyphenated(x)
    ensures Before(a + x, '-') == a
  {
    if a == "" {
      assert a + x == x;
    } else {
      assert (a + x)[1..] == a[1..] + x;
      HyphenHead(a[1..], x);
    }
  }

  /** Two different nodes get one VM name if and only if their numbers agree in the digits that
      fit behind the cleaned prefix; the roles do not matter. */
  lemma SameVmExactly(cleaned: string, j: nat, rj: set<string>, k: nat, rk: set<string>)
    requires j != k
    ensures RStrip(Take(cleaned + Suffix(j, rj), 63)) == RStrip(Take(cleaned + Suffix(k, rk), 63)) <==>
            Take(Decimal(j), DigitsLeft(cleaned)) == Take(Decimal(k), DigitsLeft(cleaned))
  {
    SuffixTidy(j, rj);
    SuffixTidy(k, rk);
    var d := DigitsLeft(cleaned);
    if d == 0 {
      CutBeforeNumber(cleaned, Suffix(j, rj), Suffix(k, rk));
    } else {
      CutInNumber(cleaned, j, rj);
      CutInNumber(cleaned, k, rk);
      SameRest(cleaned + "node", RStrip(Take(Decimal(j) + Tag(rj), d)), RStrip(Take(Decimal(k) + Tag(rk), d)));
      SameNumberPart(j, rj, k, rk, d);
    }
  }

  lemma SameRest(head: string, x: string, y: string)
    ensures head + x == head + y <==> x == y
  {
    assert (head + x)[|head|..] == x && (head + y)[|head|..] == y;
  }

  lemma SameNumberPart(j: nat, rj: set<string>, k: nat, rk: set<string>, d: nat)
    requires j != k && d > 0
    ensures RStrip(Take(Decimal(j) + Tag(rj), d)) == RStrip(Take(Decimal(k) + Tag(rk), d)) <==>
            Take(Decimal(j), d) == Take(Decimal(k), d)
  {
    var yj := NumberAndTag(j, rj, d);
    var yk := NumberAndTag(k, rk, d);
    var a, b := Take(Decimal(j), d), Take(Decimal(k), d);
    HyphenHead(a, yj);
    HyphenHead(b, yk);
    if a == b { BothCut(j, k, d); }
  }

  lemma BothCut(j: nat, k: nat, d: nat)
    requires j != k && Take(Decimal(j), d) == Take(Decimal(k), d)
    ensures |Decimal(j)| >= d && |Decimal(k)| >= d
  {
    if Decimal(j) == Decimal(k) { DecimalInjective(j, k); }
  }

  lemma CutBeforeNumber(cleaned: string, s: string, t: string)
    requires |cleaned| >= 59 && |s| >= 4 && |t| >= 4 && s[..4] == t[..4]
    ensures Take(cleaned + s, 63) == Take(cleaned + t, 63)
  {
    forall i | 0 <= i < 63 ensures (cleaned + s)[i] == (cleaned + t)[i] {
      if i >= |cleaned| { assert s[..4][i - |cleaned|] == t[..4][i - |cleaned|]; }
    }
    assert (cleaned + s)[..63] == (cleaned + t)[..63];
  }

  lemma CutInNumber(cleaned: string, number: nat, roles: set<string>)
    requires |cleaned| < 59
    ensures RStrip(Take(cleaned + Suffix(number, roles), 63)) ==
            (cleaned + "node") + RStrip(Take(Decimal(number) + Tag(roles), DigitsLeft(cleaned)))
  {
    CutBehindNode(cleaned, Decimal(number), Tag(roles));
  }

  lemma CutBehindNode(cleaned: string, digits: string, tag: string)
    requires |cleaned| < 59
    ensures RStrip(Take(cleaned + ("node" + digits + tag), 63)) ==
            (cleaned + "node") + RStrip(Take(digits + tag, 59 - |cleaned|))
  {
    var head, tail := cleaned + "node", digits + tag;
    AfterNode(cleaned, digits, tag);
    TakeTail(head, tail, 63);
    assert head[|head| - 1] == 'e';
    RStripTail(head, Take(tail, 59 - |cleaned|));
  }

  lemma AfterNode(cleaned: string, digits: string, tag: string)
    ensures cleaned + ("node" + digits + tag) == (cleaned + "node") + (digits + tag)
  {
    Regroup(cleaned, "node", digits, tag);
    assert cleaned + ("node" + digits + tag) == cleaned + ("node" + (digits + tag));
  }

  lemma TakeTail(head: string, tail: string, n: nat)
    requires |head| <= n
    ensures Take(head + tail, n) == head + Take(tail, n - |head|)
  {
  }

  // ----- all the nodes of a run --------------------------------------------

  /** Two nodes of a run get the same VM. */
  ghost predicate Collide(lower: string -> string, n: Naming, j: nat, k: nat) {
    var d := DigitsLeft(Cleaned(lower, n));
    j != k && Take(Decimal(j), d) == Take(Decimal(k), d)
  }

  lemma CollideExactly(lower: string -> string, n: Naming, j: nat, rj: set<string>, k: nat, rk: set<string>)
    requires LowersInParts(lower) && j != k
    ensures VmName(lower, n, j, rj) == VmName(lower, n, k, rk) <==> Collide(lower, n, j, k)
  {
    VmNameShape(lower, n, j, rj);
    VmNameShape(lower, n, k, rk);
    SameVmExactly(Cleaned(lower, n), j, rj, k, rk);
  }

  /** Among the at most 99 nodes of a run, none collide if the cleaned prefix has 57 characters
      or less; with 58 those collide whose numbers begin alike; with 59 or more all do. */
  lemma CollideByLength(lower: string -> string, n: Naming, j: nat, k: nat)
    requires 1 <= j < 100 && 1 <= k < 100 && j != k
    ensures var length := |Cleaned(lower, n)|;
            && (length <= 57 ==> !Collide(lower, n, j, k))
            && (length == 58 ==> (Collide(lower, n, j, k) <==> Decimal(j)[0] == Decimal(k)[0]))
            && (length >= 59 ==> Collide(lower, n, j, k))
  {
    if |Cleaned(lower, n)| <= 57 && Collide(lower, n, j, k) { DecimalInjective(j, k); }
    if |Cleaned(lower, n)| == 58 {
      assert Take(Decimal(j), 1)[0] == Decimal(j)[0] && Take(Decimal(k), 1)[0] == Decimal(k)[0];
    }
  }

  /** No hyphen of a suffix is followed by a c, as that of a Secret name is. */
  ghost predicate NoSecretTail(s: string) { forall p :: 0 <= p < |s| - 1 ==> !(s[p] == '-' && s[p + 1] == 'c') }

  lemma SuffixHasNoSecretTail(number: nat, roles: set<string>)
    ensures NoSecretTail(Suffix(number, roles))
  {
    var key := NodeKey(number);
    assert forall i :: 4 <= i < |key| ==> key[i] == Decimal(number)[i - 4];
    TagHasNoSecretTail(key, Tag(roles));
  }

  lemma TagHasNoSecretTail(key: string, tag: string)
    requires NoHyphen(key) && NoSecretTail(tag)
    ensures NoSecretTail(key + tag)
  {
    var s := key + tag;
    forall p | 0 <= p < |s| - 1 ensures !(s[p] == '-' && s[p + 1] == 'c') {
      if p < |key| {
        assert s[p] == key[p];
      } else {
        assert s[p] == tag[p - |key|] && s[p + 1] == tag[p - |key| + 1];
      }
    }
  }

  lemma ClashShows(a: string, b: string)
    requires Clash(a, b)
    ensures |a| + 1 < |b| && b[|a|] == '-' && b[|a| + 1] == 'c'
  {
    assert Kept(a) >= 2;
    assert b[|a|] == SUFFIX[0] && b[|a| + 1] == SUFFIX[1];
  }

  /** Names of one run never clash in their Secrets. */
  lemma NeverClash(lower: string -> string, n: Naming, j: nat, rj: set<string>, k: nat, rk: set<string>)
    requires LowersInParts(lower)
    ensures !Clash(VmName(lower, n, j, rj), VmName(lower, n, k, rk))
  {
    var a, b := VmName(lower, n, j, rj), VmName(lower, n, k, rk);
    VmNameShape(lower, n, j, rj);
    VmNameShape(lower, n, k, rk);
    CutNeverClash(Cleaned(lower, n), Suffix(j, rj), Suffix(k, rk), j, rj, k, rk);
  }

  lemma CutNeverClash(cleaned: string, s: string, t: string, j: nat, rj: set<string>, k: nat, rk: set<string>)
    requires s == Suffix(j, rj) && t == Suffix(k, rk)
    ensures !Clash(RStrip(Take(cleaned + s, 63)), RStrip(Take(cleaned + t, 63)))
  {
    var a, b := RStrip(Take(cleaned + s, 63)), RStrip(Take(cleaned + t, 63));
    SuffixTidy(j, rj);
    SuffixTidy(k, rk);
    if |cleaned| >= 63 {
      CutBeforeNumber(cleaned, s, t);
    } else if Clash(a, b) {
      ClashShows(a, b);
      LongerThanPrefix(cleaned, j, rj);
      SuffixHasNoSecretTail(k, rk);
    }
  }

  lemma LongerThanPrefix(cleaned: string, number: nat, roles: set<string>)
    requires |cleaned| < 63
    ensures |RStrip(Take(cleaned + Suffix(number, roles), 63))| > |cleaned|
  {
    SuffixTidy(number, roles);
    var cut := Take(cleaned + Suffix(number, roles), 63);
    assert cut[|cleaned|] == Suffix(number, roles)[..4][0];
    var r := RStrip(cut);
    assert forall i :: |r| <= i < |cut| ==> cut[i] == '-';
  }

  // ----- in terms of the names themselves ----------------------------------

  lemma {:induction false} CleaningShortens(s: string)
    ensures |Collapse(s)| <= |s| && |LStrip(s)| <= |s|
  {
    if s != "" { CleaningShortens(s[1..]); }
  }

  /** Names of at most 48 characters, which draw no warning, never collide. */
  lemma NoWarningNoCollision(lower: string -> string, n: Naming, j: nat, rj: set<string>, k: nat)
    requires |lower(Prefix(n))| <= |Prefix(n)| && |GenerateNodeName(n, j, rj)| <= 48
    requires 1 <= j < 100 && 1 <= k < 100 && j != k
    ensures !Collide(lower, n, j, k)
  {
    NameParts(n, j, rj);
    var x := Rewrite(lower(Prefix(n)));
    CleaningShortens(x);
    CleaningShortens(Collapse(x));
    CollideByLength(lower, n, j, k);
  }

  /** A prefix that is clean already keeps its length. */
  lemma CleanPrefix(lower: string -> string, n: Naming)
    requires KeepsLabels(lower)
    requires var p := Prefix(n); LabelChars(p) && NoDoubleHyphen(p) && p != "" && p[0] != '-'
    ensures Cleaned(lower, n) == Prefix(n)
  {
    RewriteFixes(Prefix(n));
    CollapseFixes(Prefix(n));
  }

  /** Such as a cluster name of 50 letters with a user and a run id behind it. */
  function LongNaming(): Naming { Naming(seq(50, i => 'a'), "user", "run1") }

  lemma LongNamingCollides(lower: string -> string, j: nat, k: nat)
    requires KeepsLabels(lower) && 1 <= j < 100 && 1 <= k < 100 && j != k
    ensures |Cleaned(lower, LongNaming())| == 61 && Collide(lower, LongNaming(), j, k)
  {
    LongPrefix();
    CleanPrefix(lower, LongNaming());
    CollideByLength(lower, LongNaming(), j, k);
  }

  lemma LongPrefix()
    ensures var p := Prefix(LongNaming()); |p| == 61 && LabelChars(p) && NoDoubleHyphen(p) && p[0] != '-'
  {
    var p, rest := Prefix(LongNaming()), "-user-run1-";
    assert p == seq(50, i => 'a') + rest;
    forall i | 0 <= i < |p| ensures p[i] == if i < 50 then 'a' else rest[i - 50] {}
  }
}
