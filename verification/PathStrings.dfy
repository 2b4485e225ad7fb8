/** Paths as strings and as lists of components: what `strtok(path, "/")`
    yields, what the two joining routines rebuild, and how the two relate. */
module PathStrings {
  import opened Basics

  /** Length of the run of non-slash characters at the front of `s`. */
  function TokenLength(s: string): (n: nat)
    ensures n <= |s|
    ensures '/' !in s[..n]
    ensures n < |s| ==> s[n] == '/'
  {
    if s == "" || s[0] == '/' then 0 else 1 + TokenLength(s[1..])
  }

  /** The tokens `strtok` produces with "/" as the only delimiter. */
  function Components(s: string): seq<string>
    decreases |s|
  {
    if s == "" then []
    else if s[0] == '/' then Components(s[1..])
    else var n := TokenLength(s); [s[..n]] + Components(s[n..])
  }

  /** "/a/b/c", and "" for no components. */
  function JoinAbs(cs: seq<string>): string {
    if cs == [] then "" else "/" + cs[0] + JoinAbs(cs[1..])
  }

  /** "a/b/c", and "" for no components. */
  function JoinRel(cs: seq<string>): string {
    if cs == [] then "" else cs[0] + JoinAbs(cs[1..])
  }

  predicate Token(s: string) {
    s != "" && '/' !in s
  }

  predicate Tokens(cs: seq<string>) {
    forall c | c in cs :: Token(c)
  }

  /** How many ".." stand at the front of a component list. */
  function LeadingDots(cs: seq<string>): (k: nat)
    ensures k <= |cs|
    ensures forall i | 0 <= i < k :: cs[i] == ".."
    ensures k < |cs| ==> cs[k] != ".."
  {
    if cs == [] || cs[0] != ".." then 0 else 1 + LeadingDots(cs[1..])
  }

  predicate Absolute(input: string) {
    input != "" && input[0] == '/'
  }

  /** Where a user standing in `pwd` is taken by `input`, before any lookup. */
  function WholePath(input: string, pwd: string): Option<string> {
    if Absolute(input) then Some(input)
    else
      var cs, base := Components(input), Components(pwd);
      var up := LeadingDots(cs);
      if up > |base| then None
      else Some(JoinAbs(base[..|base| - up]) + "/" + JoinRel(cs[up..]))
  }

  // ----- components and joins --------------------------------------------

  lemma {:induction false} TokenThenRest(a: string, s: string)
    requires '/' !in a
    requires s == "" || s[0] == '/'
    ensures TokenLength(a + s) == |a|
  {
    if a == "" {
      assert a + s == s;
    } else {
      assert (a + s)[1..] == a[1..] + s;
      TokenThenRest(a[1..], s);
    }
  }

  lemma {:induction false} ComponentsOfToken(a: string, s: string)
    requires Token(a)
    requires s == "" || s[0] == '/'
    ensures Components(a + s) == [a] + Components(s)
  {
    TokenThenRest(a, s);
    assert (a + s)[0] == a[0] != '/';
    assert (a + s)[..|a|] == a && (a + s)[|a|..] == s;
  }

  /** Splitting yields genuine components. */
  lemma {:induction false} SplitYieldsTokens(s: string)
    ensures Tokens(Components(s))
    decreases |s|
  {
    if s == "" {
    } else if s[0] == '/' {
      SplitYieldsTokens(s[1..]);
    } else {
      SplitYieldsTokens(s[TokenLength(s)..]);
    }
  }

  lemma {:induction false} JoinShape(cs: seq<string>)
    ensures JoinAbs(cs) == "" || JoinAbs(cs)[0] == '/'
    ensures cs != [] ==> JoinAbs(cs) == "/" + JoinRel(cs)
  {
  }

  /** Splitting undoes joining, with or without the leading slash. */
  lemma {:induction false} SplitOfJoin(cs: seq<string>)
    requires Tokens(cs)
    ensures Components(JoinAbs(cs)) == cs
    ensures Components(JoinRel(cs)) == cs
  {
    if cs != [] {
      var rest := cs[1..];
      SplitOfJoin(rest);
      JoinShape(rest);
      ComponentsOfToken(cs[0], JoinAbs(rest));
      assert JoinAbs(cs) == "/" + (cs[0] + JoinAbs(rest));
      assert JoinAbs(cs)[1..] == cs[0] + JoinAbs(rest);
      assert [cs[0]] + rest == cs;
    }
  }

  lemma {:induction false} JoinAbsAppend(a: seq<string>, b: seq<string>)
    ensures JoinAbs(a + b) == JoinAbs(a) + JoinAbs(b)
  {
    if a == [] {
      assert a + b == b;
    } else {
      assert (a + b)[1..] == a[1..] + b;
      JoinAbsAppend(a[1..], b);
    }
  }

  lemma {:induction false} JoinAbsInjective(a: seq<string>, b: seq<string>)
    requires Tokens(a) && Tokens(b) && JoinAbs(a) == JoinAbs(b)
    ensures a == b
  {
    SplitOfJoin(a);
    SplitOfJoin(b);
  }

  /** A joined path never ends in a slash. */
  lemma {:induction false} JoinAbsEnd(cs: seq<string>)
    requires Tokens(cs) && cs != []
    ensures JoinAbs(cs) != "" && JoinAbs(cs)[|JoinAbs(cs)| - 1] != '/'
  {
    var rest := cs[1..];
    if rest != [] {
      JoinAbsEnd(rest);
    } else {
      assert JoinAbs(cs) == "/" + cs[0];
      assert Token(cs[0]);
      assert cs[0][|cs[0]| - 1] in cs[0];
    }
  }

  /** Splitting and rejoining changes nothing the second time, and changes
      nothing at all exactly on the canonical paths. */
  lemma {:induction false} NormaliseIdempotent(s: string)
    ensures var n := JoinAbs(Components(s)); JoinAbs(Components(n)) == n
    ensures JoinAbs(Components(s)) == s <==> exists cs :: Tokens(cs) && s == JoinAbs(cs)
  {
    SplitYieldsTokens(s);
    SplitOfJoin(Components(s));
    forall cs | Tokens(cs) && s == JoinAbs(cs) ensures JoinAbs(Components(s)) == s {
      SplitOfJoin(cs);
    }
  }

  // ----- the whole path --------------------------------------------------

  /** Relative input: failure exactly when there are more leading ".." than
      components in `pwd`; otherwise drop k from the end of `pwd` and k from
      the front of the input, and no trailing slash unless nothing is left of
      the input. */
  lemma {:induction false} WholePathComponents(input: string, pwd: string)
    requires !Absolute(input)
    ensures WholePath(input, pwd) == None
            <==> LeadingDots(Components(input)) > |Components(pwd)|
    ensures WholePath(input, pwd).Some? ==>
              var k, n := LeadingDots(Components(input)), |Components(pwd)|;
              Components(WholePath(input, pwd).value) == Components(pwd)[..n - k] + Components(input)[k..]
  {
    hide Components, LeadingDots, JoinAbs, JoinRel;
    var cs, base := Components(input), Components(pwd);
    var k, n := LeadingDots(cs), |base|;
    if k <= n {
      SplitYieldsTokens(input);
      SplitYieldsTokens(pwd);
      assert Tokens(base[..n - k]) && Tokens(cs[k..]);
      WholeOfParts(base[..n - k], cs[k..]);
    }
  }

  /** Gluing two component lists the way the whole path is glued. */
  lemma {:induction false} WholeOfParts(front: seq<string>, rest: seq<string>)
    requires Tokens(front) && Tokens(rest)
    ensures Components(JoinAbs(front) + "/" + JoinRel(rest)) == front + rest
    ensures rest == [] ==> JoinAbs(front) + "/" + JoinRel(rest) == JoinAbs(front) + "/"
    ensures rest != [] ==> JoinAbs(front) + "/" + JoinRel(rest) == JoinAbs(front + rest)
  {
    SplitOfJoin(front);
    if rest == [] {
      ComponentsDropSlash(JoinAbs(front));
      assert JoinAbs(front) + "/" + JoinRel(rest) == JoinAbs(front) + "/";
      assert front + rest == front;
    } else {
      WholeIsJoin(front, rest);
      SplitOfJoin(front + rest);
    }
  }

  lemma {:induction false} WholeIsJoin(front: seq<string>, rest: seq<string>)
    requires rest != []
    ensures JoinAbs(front) + "/" + JoinRel(rest) == JoinAbs(front + rest)
  {
    JoinShape(rest);
    JoinAbsAppend(front, rest);
    hide JoinAbs, JoinRel;
    assert JoinAbs(front) + "/" + JoinRel(rest) == JoinAbs(front) + ("/" + JoinRel(rest));
  }

  /** A trailing slash adds no component. */
  lemma {:induction false} ComponentsDropSlash(s: string)
    ensures Components(s + "/") == Components(s)
    decreases |s|
  {
    if s == "" {
      assert s + "/" == "/";
      assert "/"[1..] == "";
    } else if s[0] == '/' {
      assert (s + "/")[1..] == s[1..] + "/";
      ComponentsDropSlash(s[1..]);
    } else {
      var n := TokenLength(s);
      TokenThenRest(s[..n], s[n..] + "/");
      assert s[..n] + (s[n..] + "/") == s + "/";
      assert (s + "/")[..n] == s[..n] && (s + "/")[n..] == s[n..] + "/";
      ComponentsDropSlash(s[n..]);
    }
  }

  lemma {:induction false} JoinedLength(s: string)
    ensures |JoinAbs(Components(s))| <= |s| + 1
    ensures s != "" && s[0] == '/' ==> |JoinAbs(Components(s))| <= |s|
    decreases |s|
  {
    if s == "" {
    } else if s[0] == '/' {
      JoinedLength(s[1..]);
    } else {
      var n := TokenLength(s);
      JoinedLength(s[n..]);
    }
  }

  lemma {:induction false} JoinedSliceLength(cs: seq<string>, i: nat)
    requires i <= |cs|
    ensures |JoinAbs(cs[..i])| <= |JoinAbs(cs)|
    ensures |JoinAbs(cs[i..])| <= |JoinAbs(cs)|
  {
    assert cs[..i] + cs[i..] == cs;
    JoinAbsAppend(cs[..i], cs[i..]);
  }

  const COPY_BYTES := 128
  const WHOLE_BYTES := 512

  /** The 512-byte result buffer holds every result, terminator included: a
      relative input's as long as both inputs fit their own 128-byte copies, an
      absolute input's, which goes in as it stands, exactly up to 511 bytes. */
  lemma {:induction false} BuffersSuffice(input: string, pwd: string)
    requires |pwd| + 1 <= COPY_BYTES && (!Absolute(input) ==> |input| + 2 <= COPY_BYTES)
    ensures var whole := WholePath(input, pwd);
            if Absolute(input) then whole.Some? && (|whole.value| + 1 <= WHOLE_BYTES <==> |input| < WHOLE_BYTES)
            else whole.Some? ==> |whole.value| + 1 <= WHOLE_BYTES
  {
    if !Absolute(input) && WholePath(input, pwd).Some? {
      var cs, base := Components(input), Components(pwd);
      var k := LeadingDots(cs);
      JoinedLength(input);
      JoinedLength(pwd);
      JoinedSliceLength(cs, k);
      JoinedSliceLength(base, |base| - k);
      JoinShape(cs[k..]);
    }
  }
}
