/** The address pattern the invite field tests each token against
    (PurchaseForm.tsx:81), a loose form of the addr-spec of section 3.4.1 of
    RFC 5322:

      ^(dot-atom | "quoted")@(\[d.d.d.d\] | (label.)+letters)$

    Each alternative is written as a recursive predicate that follows the
    pattern's structure. A run of atom, label or digit characters can never
    hold a `.`, so every run ends at the first `.` after it, and the
    predicates split there. */
module EmailSyntax {
  import opened JsText

  /** `\s`: the WhiteSpace and LineTerminator code points of ECMAScript. */
  predicate IsSpace(c: char)
  {
    var v := c as int;
    v == 0x09 || v == 0x0A || v == 0x0B || v == 0x0C || v == 0x0D || v == 0x20
    || v == 0xA0 || v == 0x1680 || (0x2000 <= v <= 0x200A) || v == 0x2028 || v == 0x2029
    || v == 0x202F || v == 0x205F || v == 0x3000 || v == 0xFEFF
  }

  /** The characters `.` does not match: the ECMAScript line terminators. */
  predicate IsLineTerminator(c: char)
  {
    c == '\n' || c == '\r' || c as int == 0x2028 || c as int == 0x2029
  }

  /** `[^<>()[\]\\.,;:\s@"]`: a character allowed in an unquoted local part. */
  predicate IsAtomChar(c: char)
  {
    c !in "<>()[]\\.,;:@\"" && !IsSpace(c)
  }

  predicate IsDigit(c: char) { '0' <= c <= '9' }

  predicate IsLetter(c: char) { 'a' <= c <= 'z' || 'A' <= c <= 'Z' }

  /** `[a-zA-Z\-0-9]` */
  predicate IsLabelChar(c: char) { IsLetter(c) || IsDigit(c) || c == '-' }

  /** `[^…]+`: one or more atom characters. */
  predicate AtomRun(s: string)
  {
    |s| >= 1 && forall i :: 0 <= i < |s| ==> IsAtomChar(s[i])
  }

  /** `[^…]+(\.[^…]+)*`: atom runs joined by single dots. */
  predicate DotAtom(s: string)
    decreases |s|
  {
    var i := FirstIndex(s, '.');
    AtomRun(s[..i]) && (i == |s| || DotAtom(s[i + 1..]))
  }

  /** `".+"`: a quote, at least one character other than a line terminator, a quote. */
  predicate QuotedString(s: string)
  {
    |s| >= 3 && s[0] == '"' && s[|s| - 1] == '"'
    && forall i :: 1 <= i < |s| - 1 ==> !IsLineTerminator(s[i])
  }

  /** The part before the `@`. */
  predicate LocalPart(s: string)
  {
    DotAtom(s) || QuotedString(s)
  }

  /** `[0-9]{1,3}` */
  predicate DigitRun(s: string)
  {
    1 <= |s| <= 3 && forall i :: 0 <= i < |s| ==> IsDigit(s[i])
  }

  /** `n` digit runs joined by dots. */
  predicate DottedDigits(s: string, n: nat)
    decreases n
  {
    n >= 1 &&
    var i := FirstIndex(s, '.');
    DigitRun(s[..i]) && (if n == 1 then i == |s| else i < |s| && DottedDigits(s[i + 1..], n - 1))
  }

  /** `\[[0-9]{1,3}\.[0-9]{1,3}\.[0-9]{1,3}\.[0-9]{1,3}\]`, with no range check on the numbers. */
  predicate AddressLiteral(s: string)
  {
    |s| >= 2 && s[0] == '[' && s[|s| - 1] == ']' && DottedDigits(s[1..|s| - 1], 4)
  }

  /** `[a-zA-Z\-0-9]+` */
  predicate LabelRun(s: string)
  {
    |s| >= 1 && forall i :: 0 <= i < |s| ==> IsLabelChar(s[i])
  }

  /** `[a-zA-Z]{2,}` */
  predicate TopLevelLabel(s: string)
  {
    |s| >= 2 && forall i :: 0 <= i < |s| ==> IsLetter(s[i])
  }

  /** `([a-zA-Z\-0-9]+\.)+[a-zA-Z]{2,}`: one or more labels, each followed by a dot, then the top-level label. */
  predicate HostName(s: string)
    decreases |s|
  {
    var i := FirstIndex(s, '.');
    i < |s| && LabelRun(s[..i]) && (TopLevelLabel(s[i + 1..]) || HostName(s[i + 1..]))
  }

  /** The part after the `@`. */
  predicate Domain(s: string)
  {
    AddressLiteral(s) || HostName(s)
  }

  /** `re.test(t)`, read deterministically: the domain never holds an `@`,
      so the `@` the pattern matches is the last one in the token. */
  predicate IsEmail(t: string)
  {
    var k := LastIndexOf(t, '@');
    0 <= k && LocalPart(t[..k]) && Domain(t[k + 1..])
  }

  /** The pattern read as written: some `@` splits the token into a local part and a domain. */
  ghost predicate PatternMatches(t: string)
  {
    exists k :: 0 <= k < |t| && t[k] == '@' && LocalPart(t[..k]) && Domain(t[k + 1..])
  }

  lemma {:induction false} DottedDigitsHaveNoAt(s: string, n: nat)
    requires DottedDigits(s, n)
    ensures '@' !in s
    decreases n
  {
    var i := FirstIndex(s, '.');
    assert s[..i] == s[..i];
    if n > 1 {
      DottedDigitsHaveNoAt(s[i + 1..], n - 1);
      assert s == s[..i] + [s[i]] + s[i + 1..];
    } else {
      assert s == s[..i];
    }
    forall j | 0 <= j < |s| ensures s[j] != '@' {
      if j < i {
        assert s[..i][j] == s[j];
      } else if j > i {
        assert s[i + 1..][j - i - 1] == s[j];
      }
    }
  }

  lemma {:induction false} HostNameHasNoAt(s: string)
    requires HostName(s)
    ensures '@' !in s
    decreases |s|
  {
    var i := FirstIndex(s, '.');
    var rest := s[i + 1..];
    if !TopLevelLabel(rest) {
      HostNameHasNoAt(rest);
    }
    forall j | 0 <= j < |s| ensures s[j] != '@' {
      if j < i {
        assert s[..i][j] == s[j];
      } else if j > i {
        assert rest[j - i - 1] == s[j];
      }
    }
  }

  /** No domain the pattern accepts contains an `@`. */
  lemma DomainHasNoAt(s: string)
    requires Domain(s)
    ensures '@' !in s
  {
    if AddressLiteral(s) {
      var inner := s[1..|s| - 1];
      DottedDigitsHaveNoAt(inner, 4);
      forall j | 1 <= j < |s| - 1 ensures s[j] != '@' {
        assert inner[j - 1] == s[j];
      }
    } else {
      HostNameHasNoAt(s);
    }
  }

  /** The last `@` is the one with no `@` after it. */
  lemma LastAtIs(t: string, k: nat)
    requires k < |t| && t[k] == '@'
    requires forall j :: k < j < |t| ==> t[j] != '@'
    ensures LastIndexOf(t, '@') == k
  {
  }

  /** An `@` followed by a domain is the last `@` of the token. */
  lemma DomainFollowsLastAt(t: string, k: nat)
    requires k < |t| && t[k] == '@'
    requires Domain(t[k + 1..])
    ensures LastIndexOf(t, '@') == k
  {
    var dom := t[k + 1..];
    DomainHasNoAt(dom);
    forall j | k < j < |t| ensures t[j] != '@' {
      assert dom[j - k - 1] == t[j];
    }
    LastAtIs(t, k);
  }

  /** A token accepted at its last `@` is matched by the pattern. */
  lemma AcceptedMatchesPattern(t: string)
    requires IsEmail(t)
    ensures PatternMatches(t)
  {
    var k := LastIndexOf(t, '@');
    assert 0 <= k < |t| && t[k] == '@' && LocalPart(t[..k]) && Domain(t[k + 1..]);
  }

  /** Splitting at the last `@` accepts exactly the tokens the pattern matches. */
  lemma IsEmailIffPatternMatches(t: string)
    ensures IsEmail(t) <==> PatternMatches(t)
  {
    if IsEmail(t) {
      AcceptedMatchesPattern(t);
    }
    if PatternMatches(t) {
      var k :| 0 <= k < |t| && t[k] == '@' && LocalPart(t[..k]) && Domain(t[k + 1..]);
      AcceptedAt(t, k);
    }
  }

  /** Every accepted token holds an `@`. */
  lemma EmailHasAt(t: string)
    requires IsEmail(t)
    ensures '@' in t
  {
    assert t[LastIndexOf(t, '@')] == '@';
  }

  /** A dot-atom read character by character: not empty, no dot at either
      end, no two dots in a row, and only atom characters besides dots. */
  predicate DotAtomShape(s: string)
  {
    && |s| > 0 && s[0] != '.' && s[|s| - 1] != '.'
    && (forall i :: 0 <= i < |s| ==> IsAtomChar(s[i]) || s[i] == '.')
    && (forall i :: 0 <= i < |s| - 1 && s[i] == '.' ==> s[i + 1] != '.')
  }

  lemma {:induction false} DotAtomHasShape(s: string)
    requires DotAtom(s)
    ensures DotAtomShape(s)
    decreases |s|
  {
    var i := FirstIndex(s, '.');
    var head := s[..i];
    assert AtomRun(head);
    assert head[0] == s[0];
    if i == |s| {
      assert head == s;
    } else {
      var rest := s[i + 1..];
      DotAtomHasShape(rest);
      forall j | 0 <= j < |s| ensures IsAtomChar(s[j]) || s[j] == '.' {
        if j < i { assert head[j] == s[j]; }
        else if j > i { assert rest[j - i - 1] == s[j]; }
      }
      forall j | 0 <= j < |s| - 1 && s[j] == '.' ensures s[j + 1] != '.' {
        if j == i { assert rest[0] == s[j + 1]; }
        else if j > i { assert rest[j - i - 1] == s[j] && rest[j - i] == s[j + 1]; }
      }
      assert rest[|rest| - 1] == s[|s| - 1];
    }
  }

  lemma {:induction false} ShapeIsDotAtom(s: string)
    requires DotAtomShape(s)
    ensures DotAtom(s)
    decreases |s|
  {
    var i := FirstIndex(s, '.');
    var head := s[..i];
    assert i > 0;
    forall j | 0 <= j < i ensures IsAtomChar(head[j]) {
      assert head[j] == s[j];
    }
    assert AtomRun(head);
    if i < |s| {
      var rest := s[i + 1..];
      assert i < |s| - 1;
      assert s[i + 1] != '.';
      assert rest[0] == s[i + 1];
      assert rest[|rest| - 1] == s[|s| - 1];
      forall j | 0 <= j < |rest| ensures IsAtomChar(rest[j]) || rest[j] == '.' {
        assert rest[j] == s[j + i + 1];
      }
      forall j | 0 <= j < |rest| - 1 && rest[j] == '.' ensures rest[j + 1] != '.' {
        assert rest[j] == s[j + i + 1] && rest[j + 1] == s[j + i + 2];
      }
      ShapeIsDotAtom(rest);
    }
  }

  /** The recursive reading of `[^…]+(\.[^…]+)*` agrees with the character-level one. */
  lemma DotAtomIffShape(s: string)
    ensures DotAtom(s) <==> DotAtomShape(s)
  {
    if DotAtom(s) { DotAtomHasShape(s); }
    if DotAtomShape(s) { ShapeIsDotAtom(s); }
  }

  /** A token the pattern accepts at a given `@`. */
  lemma AcceptedAt(t: string, k: nat)
    requires k < |t| && t[k] == '@'
    requires LocalPart(t[..k]) && Domain(t[k + 1..])
    ensures IsEmail(t)
  {
    DomainFollowsLastAt(t, k);
  }

  /** Nothing is trimmed: a token that starts with white space is rejected. */
  lemma {:induction false} LeadingSpaceRejected(t: string)
    requires |t| > 0 && IsSpace(t[0])
    ensures !IsEmail(t)
  {
    var k := LastIndexOf(t, '@');
    if 0 < k {
      var local := t[..k];
      assert local[0] == t[0];
      assert !IsAtomChar(local[0]);
      var i := FirstIndex(local, '.');
      if 0 < i {
        assert local[..i][0] == local[0];
      }
      assert !DotAtom(local);
    }
  }

  /** A token without an `@` is rejected. */
  lemma NoAtRejected(t: string)
    requires '@' !in t
    ensures !IsEmail(t)
  {
  }

  /** A token that ends in its `@` has no domain and is rejected. */
  lemma TrailingAtRejected(t: string)
    requires |t| > 0 && t[|t| - 1] == '@'
    ensures !IsEmail(t)
  {
    assert LastIndexOf(t, '@') == |t| - 1;
    assert t[|t|..] == [];
  }

  /** One label, a dot and a top-level label form a host name. */
  lemma HostWithTld(host: string, tld: string)
    requires LabelRun(host) && TopLevelLabel(tld)
    ensures HostName(host + "." + tld)
  {
    var dom := host + "." + tld;
    assert forall j :: 0 <= j < |host| ==> dom[j] == host[j] && dom[j] != '.';
    assert dom[|host|] == '.';
    assert FirstIndex(dom, '.') == |host|;
    assert dom[..|host|] == host && dom[|host| + 1..] == tld;
  }

  /** `local@host.tld` with a plain local part, one label and a top-level label is accepted. */
  lemma SimpleAddressAccepted(local: string, host: string, tld: string)
    requires AtomRun(local) && LabelRun(host) && TopLevelLabel(tld)
    ensures IsEmail(local + "@" + host + "." + tld)
  {
    assert DotAtom(local) by {
      assert forall j :: 0 <= j < |local| ==> local[j] != '.' by {
        assert !IsAtomChar('.');
      }
      assert FirstIndex(local, '.') == |local|;
      assert local[..|local|] == local;
    }
    var dom := host + "." + tld;
    HostWithTld(host, tld);
    var t := local + "@" + host + "." + tld;
    assert t == local + "@" + dom;
    assert t[..|local|] == local && t[|local|] == '@' && t[|local| + 1..] == dom;
    AcceptedAt(t, |local|);
  }

  /** `x@y.com`, the first address of `"x@y.com, z@q.net"`, is accepted. */
  lemma AcceptedSample()
    ensures IsEmail("x@y.com")
  {
    SimpleAddressAccepted("x", "y", "com");
    assert "x" + "@" + "y" + "." + "com" == "x@y.com";
  }

  /** A token with a leading space, one without `@` and one ending in `@` are rejected. */
  lemma RejectedSamples()
    ensures !IsEmail(" z@q.net") && !IsEmail("not-an-email") && !IsEmail("bad@")
  {
    LeadingSpaceRejected(" z@q.net");
    NoAtRejected("not-an-email");
    TrailingAtRejected("bad@");
  }

  /** One more digit group in front of a dotted group list. */
  lemma DottedDigitsCons(d: string, rest: string, n: nat)
    requires DigitRun(d) && DottedDigits(rest, n)
    ensures DottedDigits(d + "." + rest, n + 1)
  {
    var s := d + "." + rest;
    assert s[|d|] == '.';
    assert forall j :: 0 <= j < |d| ==> s[j] == d[j];
    assert FirstIndex(s, '.') == |d|;
    assert s[..|d|] == d && s[|d| + 1..] == rest;
  }

  /** Any four groups of one to three digits form an address literal; the
      numbers are not range-checked. */
  lemma DottedQuadAccepted(a: string, b: string, c: string, d: string)
    requires DigitRun(a) && DigitRun(b) && DigitRun(c) && DigitRun(d)
    ensures AddressLiteral("[" + (a + "." + (b + "." + (c + "." + d))) + "]")
  {
    assert DottedDigits(d, 1) by {
      assert FirstIndex(d, '.') == |d|;
      assert d[..|d|] == d;
    }
    DottedDigitsCons(c, d, 1);
    DottedDigitsCons(b, c + "." + d, 2);
    var inner := a + "." + (b + "." + (c + "." + d));
    DottedDigitsCons(a, b + "." + (c + "." + d), 3);
    var lit := "[" + inner + "]";
    assert lit[1..|lit| - 1] == inner;
  }

  /** Any quoted local part is accepted in front of a domain, even one that
      holds `@` or `,` itself: the pattern's `.` matches them. */
  lemma QuotedLocalPartAccepted(q: string, dom: string)
    requires |q| >= 1 && forall i :: 0 <= i < |q| ==> !IsLineTerminator(q[i])
    requires Domain(dom)
    ensures IsEmail("\"" + q + "\"" + "@" + dom)
  {
    var local := "\"" + q + "\"";
    var t := local + "@" + dom;
    assert forall i :: 1 <= i < |local| - 1 ==> local[i] == q[i - 1];
    assert QuotedString(local);
    assert t[..|local|] == local && t[|local|] == '@' && t[|local| + 1..] == dom;
    AcceptedAt(t, |local|);
  }

  /** A lone quote is no local part: a token `"@d` is rejected. */
  lemma LoneQuoteRejected(d: string)
    requires '@' !in d
    ensures !IsEmail("\"" + "@" + d)
  {
    var t := "\"" + "@" + d;
    assert t[1] == '@';
    assert forall j :: 1 < j < |t| ==> t[j] == d[j - 2];
    LastAtIs(t, 1);
    assert t[..1] == "\"";
    assert !IsAtomChar('"');
    assert FirstIndex("\"", '.') == 1;
  }

  /** `a.bc` is a domain, so `","@a.bc` is an instance of the quoted-comma case. */
  lemma SampleDomain()
    ensures Domain("a.bc")
  {
    HostWithTld("a", "bc");
    assert "a" + "." + "bc" == "a.bc";
  }
}
