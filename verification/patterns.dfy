/**
 * The two regular expressions the signup route tests, written as recursive
 * predicates that scan the string left to right.
 *
 *   name:   ^[a-zA-Z]*$
 *   email:  ^[\w-\.]+@([\w-]+\.)+[\w-]{2,4}$
 *
 * Neither expression carries a flag, so `\w` is `[A-Za-z0-9_]` and `$`
 * matches only at the end of the input. Inside a class, `\w-\.` is read (as
 * JavaScript's web-compatibility grammar prescribes) as `\w`, a literal `-`
 * and a literal `.`, not as a range.
 */
module Patterns {

  predicate IsAsciiLetter(c: char) {
    'a' <= c <= 'z' || 'A' <= c <= 'Z'
  }

  /** `\w` */
  predicate IsWordChar(c: char) {
    IsAsciiLetter(c) || '0' <= c <= '9' || c == '_'
  }

  /** `[\w-]`: a character of a domain label or of the top-level domain. */
  predicate IsLabelChar(c: char) {
    IsWordChar(c) || c == '-'
  }

  /** `[\w-\.]`: a character of the part before the `@`. */
  predicate IsLocalChar(c: char) {
    IsLabelChar(c) || c == '.'
  }

  /** `^[a-zA-Z]*$` */
  function MatchesName(s: string): (b: bool)
    ensures b <==> forall i :: 0 <= i < |s| ==> IsAsciiLetter(s[i])
  {
    |s| == 0 || (IsAsciiLetter(s[0]) && MatchesName(s[1..]))
  }

  // ---------------------------------------------------------------------
  // The email expression, one predicate per position of the scan.
  // ---------------------------------------------------------------------

  /** `^[\w-\.]+@ …$`: at least one local character, then the rest. */
  predicate MatchesEmail(s: string) {
    |s| > 0 && IsLocalChar(s[0]) && AfterLocalChar(s[1..])
  }

  /** Inside `[\w-\.]+`, at least one character consumed. */
  predicate AfterLocalChar(s: string)
    decreases |s|
  {
    |s| > 0 &&
    if s[0] == '@' then MatchesDomain(s[1..])
    else IsLocalChar(s[0]) && AfterLocalChar(s[1..])
  }

  /** `([\w-]+\.)+[\w-]{2,4}$` */
  predicate MatchesDomain(s: string)
    decreases |s|, 1
  {
    |s| > 0 && IsLabelChar(s[0]) && AfterLabelChar(s[1..])
  }

  /** Inside a label `[\w-]+`, at least one character consumed; after its dot
      comes either the final `[\w-]{2,4}` or another label. */
  predicate AfterLabelChar(s: string)
    decreases |s|, 0
  {
    |s| > 0 &&
    if s[0] == '.' then IsTopLevel(s[1..]) || MatchesDomain(s[1..])
    else IsLabelChar(s[0]) && AfterLabelChar(s[1..])
  }

  /** `[\w-]{2,4}$` */
  predicate IsTopLevel(s: string) {
    2 <= |s| <= 4 && forall i :: 0 <= i < |s| ==> IsLabelChar(s[i])
  }

  // ---------------------------------------------------------------------
  // An independent description of the same language: an address is a local
  // part, an `@`, one or more labels each followed by a dot, and a
  // top-level domain.
  // ---------------------------------------------------------------------

  predicate IsLocalPart(l: string) {
    |l| >= 1 && forall i :: 0 <= i < |l| ==> IsLocalChar(l[i])
  }

  predicate IsLabel(l: string) {
    |l| >= 1 && forall i :: 0 <= i < |l| ==> IsLabelChar(l[i])
  }

  predicate AreLabels(labels: seq<string>) {
    |labels| >= 1 && forall k :: 0 <= k < |labels| ==> IsLabel(labels[k])
  }

  /** Each label followed by a dot, in order. */
  function Dotted(labels: seq<string>): string {
    if |labels| == 0 then [] else labels[0] + "." + Dotted(labels[1..])
  }

  function ComposeEmail(local: string, labels: seq<string>, top: string): string {
    local + "@" + Dotted(labels) + top
  }

  lemma {:induction false} AfterLabelCharOf(l: string, rest: string)
    requires forall i :: 0 <= i < |l| ==> IsLabelChar(l[i])
    requires IsTopLevel(rest) || MatchesDomain(rest)
    ensures AfterLabelChar(l + "." + rest)
    decreases |l|
  {
    var s := l + "." + rest;
    if |l| == 0 {
      assert s[0] == '.' && s[1..] == rest;
    } else {
      assert s[0] == l[0] && s[1..] == l[1..] + "." + rest;
      AfterLabelCharOf(l[1..], rest);
    }
  }

  lemma {:induction false} DomainComposes(labels: seq<string>, top: string)
    requires AreLabels(labels) && IsTopLevel(top)
    ensures MatchesDomain(Dotted(labels) + top)
    decreases |labels|
  {
    var l := labels[0];
    var rest := Dotted(labels[1..]) + top;
    assert Dotted(labels) + top == l + "." + rest;
    if |labels| > 1 {
      assert AreLabels(labels[1..]) by {
        forall k | 0 <= k < |labels[1..]| ensures IsLabel(labels[1..][k]) {
          assert labels[1..][k] == labels[k + 1];
        }
      }
      DomainComposes(labels[1..], top);
    } else {
      assert labels[1..] == [];
    }
    AfterLabelCharOf(l[1..], rest);
    assert (l + "." + rest)[1..] == l[1..] + "." + rest;
  }

  lemma {:induction false} AfterLocalCharOf(l: string, domain: string)
    requires forall i :: 0 <= i < |l| ==> IsLocalChar(l[i])
    requires MatchesDomain(domain)
    ensures AfterLocalChar(l + "@" + domain)
    decreases |l|
  {
    var s := l + "@" + domain;
    if |l| == 0 {
      assert s[0] == '@' && s[1..] == domain;
    } else {
      assert s[0] == l[0] && s[1..] == l[1..] + "@" + domain;
      AfterLocalCharOf(l[1..], domain);
    }
  }

  /** Every well-formed composition matches the email expression. */
  lemma EmailComposes(local: string, labels: seq<string>, top: string)
    requires IsLocalPart(local) && AreLabels(labels) && IsTopLevel(top)
    ensures MatchesEmail(ComposeEmail(local, labels, top))
  {
    var domain := Dotted(labels) + top;
    DomainComposes(labels, top);
    AfterLocalCharOf(local[1..], domain);
    var s := ComposeEmail(local, labels, top);
    assert s == local + "@" + domain;
    assert s[1..] == local[1..] + "@" + domain;
  }

  lemma {:induction false} LabelParts(s: string) returns (l: string, rest: string)
    requires AfterLabelChar(s)
    ensures forall i :: 0 <= i < |l| ==> IsLabelChar(l[i])
    ensures IsTopLevel(rest) || MatchesDomain(rest)
    ensures s == l + "." + rest
    decreases |s|
  {
    if s[0] == '.' {
      l, rest := [], s[1..];
    } else {
      var l', rest' := LabelParts(s[1..]);
      l, rest := [s[0]] + l', rest';
      assert l[1..] == l';
    }
  }

  lemma {:induction false} DomainParts(s: string) returns (labels: seq<string>, top: string)
    requires MatchesDomain(s)
    ensures AreLabels(labels) && IsTopLevel(top)
    ensures s == Dotted(labels) + top
    decreases |s|
  {
    var l', rest := LabelParts(s[1..]);
    var l := [s[0]] + l';
    assert l[1..] == l';
    assert s == l + "." + rest;
    if IsTopLevel(rest) {
      labels, top := [l], rest;
      assert Dotted(labels) == l + "." + Dotted([]);
    } else {
      var ls, t := DomainParts(rest);
      labels, top := [l] + ls, t;
      assert labels[1..] == ls;
      assert labels[0] == l;
      assert Dotted(labels) == l + "." + Dotted(ls);
    }
  }

  lemma {:induction false} LocalParts(s: string) returns (l: string, domain: string)
    requires AfterLocalChar(s)
    ensures forall i :: 0 <= i < |l| ==> IsLocalChar(l[i])
    ensures MatchesDomain(domain)
    ensures s == l + "@" + domain
    decreases |s|
  {
    if s[0] == '@' {
      l, domain := [], s[1..];
    } else {
      var l', d' := LocalParts(s[1..]);
      l, domain := [s[0]] + l', d';
      assert l[1..] == l';
    }
  }

  /** Every string the email expression accepts is a well-formed composition. */
  lemma EmailParts(s: string) returns (local: string, labels: seq<string>, top: string)
    requires MatchesEmail(s)
    ensures IsLocalPart(local) && AreLabels(labels) && IsTopLevel(top)
    ensures s == ComposeEmail(local, labels, top)
  {
    var l', domain := LocalParts(s[1..]);
    local := [s[0]] + l';
    assert local[1..] == l';
    labels, top := DomainParts(domain);
  }

  /** An address contains an `@`: a string without one is refused. */
  lemma EmailNeedsAt(s: string)
    ensures MatchesEmail(s) ==> '@' in s
  {
    if MatchesEmail(s) {
      var local, labels, top := EmailParts(s);
      assert s[|local|] == '@';
    }
  }

  /** An address needs a dot after its `@`: a bare host name is refused. */
  lemma EmailNeedsDomainDot(local: string, host: string)
    ensures '@' !in local && MatchesEmail(local + "@" + host) ==> '.' in host
  {
    var s := local + "@" + host;
    if '@' !in local && MatchesEmail(s) {
      var l, labels, top := EmailParts(s);
      assert forall i | 0 <= i < |l| :: l[i] != '@' by {
        forall i | 0 <= i < |l| ensures l[i] != '@' {
          assert IsLocalChar(l[i]);
        }
      }
      var domain := Dotted(labels) + top;
      assert l + "@" + domain == s;
      AtSplitUnique(local, host, l, domain);
      assert host[|labels[0]|] == '.';
    }
  }

  /** The position of the first `c` in `s`, or `|s|` when there is none. */
  function IndexOf(s: string, c: char): (k: nat)
    ensures k <= |s|
    ensures forall i :: 0 <= i < k ==> s[i] != c
    ensures k < |s| ==> s[k] == c
  {
    if |s| == 0 || s[0] == c then 0 else 1 + IndexOf(s[1..], c)
  }

  lemma {:induction false} IndexOfAfter(a: string, c: char, b: string)
    requires c !in a
    ensures IndexOf(a + [c] + b, c) == |a|
    decreases |a|
  {
    if |a| > 0 {
      assert (a + [c] + b)[1..] == a[1..] + [c] + b;
      IndexOfAfter(a[1..], c, b);
    }
  }

  /** Splitting at the first `@` is unambiguous. */
  lemma AtSplitUnique(a: string, b: string, c: string, d: string)
    requires '@' !in a && '@' !in c && a + "@" + b == c + "@" + d
    ensures a == c && b == d
  {
    var s := a + "@" + b;
    IndexOfAfter(a, '@', b);
    IndexOfAfter(c, '@', d);
    assert a == s[..|a|] == c;
    assert b == s[|a| + 1..] == d;
  }
}
