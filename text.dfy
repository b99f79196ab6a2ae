/** Python's `str.strip()` with no argument: removes leading and trailing
    whitespace, where whitespace is what `str.isspace` accepts. */
module Text {

  /** The characters Python 3 treats as whitespace. */
  predicate IsSpace(c: char)
  {
    || c == ' '
    || ('\t' <= c <= '\r')                  // \t \n \v \f \r
    || ('\U{1C}' <= c <= '\U{1F}')          // file, group, record and unit separators
    || c == '\U{85}' || c == '\U{A0}' || c == '\U{1680}'
    || ('\U{2000}' <= c <= '\U{200A}')
    || c == '\U{2028}' || c == '\U{2029}' || c == '\U{202F}' || c == '\U{205F}'
    || c == '\U{3000}'
  }

  predicate AllSpace(s: string)
  {
    forall i :: 0 <= i < |s| ==> IsSpace(s[i])
  }

  /** Drops the leading whitespace: the result does not start with
      whitespace (`TrimStartKeeps` and
      `TrimStartDrops` say what was kept and what dropped). */
  function TrimStart(s: string): (r: string)
    ensures |r| <= |s|
    ensures r == [] || !IsSpace(r[0])
  {
    if s != [] && IsSpace(s[0]) then TrimStart(s[1..]) else s
  }

  /** `TrimStart` keeps a suffix of its input ... */
  lemma {:induction false} TrimStartKeeps(s: string, i: nat)
    requires i < |TrimStart(s)|
    ensures TrimStart(s)[i] == s[|s| - |TrimStart(s)| + i]
  {
    if s != [] && IsSpace(s[0]) {
      var rest := s[1..];
      TrimStartKeeps(rest, i);
      assert rest[|rest| - |TrimStart(rest)| + i] == s[|s| - |TrimStart(s)| + i];
    }
  }

  /** ... and what it drops in front of that suffix is whitespace. */
  lemma {:induction false} TrimStartDrops(s: string, i: nat)
    requires i < |s| - |TrimStart(s)|
    ensures IsSpace(s[i])
  {
    if i > 0 {
      var rest := s[1..];
      TrimStartDrops(rest, i - 1);
      assert rest[i - 1] == s[i];
    }
  }

  /** Drops the trailing whitespace: the result does not end with
      whitespace (`TrimEndKeeps` and
      `TrimEndDrops` say what was kept and what dropped). */
  function TrimEnd(s: string): (r: string)
    ensures |r| <= |s|
    ensures r == [] || !IsSpace(r[|r| - 1])
  {
    if s != [] && IsSpace(s[|s| - 1]) then TrimEnd(s[..|s| - 1]) else s
  }

  /** `TrimEnd` keeps a prefix of its input ... */
  lemma {:induction false} TrimEndKeeps(s: string, i: nat)
    requires i < |TrimEnd(s)|
    ensures TrimEnd(s)[i] == s[i]
  {
    if s != [] && IsSpace(s[|s| - 1]) {
      var init := s[..|s| - 1];
      TrimEndKeeps(init, i);
      assert init[i] == s[i];
    }
  }

  /** ... and what it drops after that prefix is whitespace. */
  lemma {:induction false} TrimEndDrops(s: string, i: nat)
    requires |TrimEnd(s)| <= i < |s|
    ensures IsSpace(s[i])
  {
    if i < |s| - 1 {
      var init := s[..|s| - 1];
      TrimEndDrops(init, i);
      assert init[i] == s[i];
    }
  }

  /** `r` is what is left of `s` once the `k` characters in front of it and
      everything after it, all whitespace, are cut away. */
  ghost predicate StrippedAt(s: string, r: string, k: nat)
  {
    && k + |r| <= |s|
    && (forall i :: 0 <= i < |r| ==> r[i] == s[k + i])
    && (forall i :: 0 <= i < k ==> IsSpace(s[i]))
    && (forall i :: k + |r| <= i < |s| ==> IsSpace(s[i]))
  }

  /** `str.strip()`. */
  function Strip(s: string): (r: string)
    ensures r == [] || (!IsSpace(r[0]) && !IsSpace(r[|r| - 1]))
  {
    var r := TrimEnd(TrimStart(s));
    assert r != [] ==> !IsSpace(r[0]) by {
      if r != [] { TrimEndKeeps(TrimStart(s), 0); }
    }
    r
  }

  /** What `Strip` returns is a contiguous piece of its input and only
      whitespace was cut from either side of it. */
  lemma StripIsTrimmedSlice(s: string)
    ensures exists k :: StrippedAt(s, Strip(s), k)
  {
    var t := TrimStart(s);
    var r := TrimEnd(t);
    var k := |s| - |t|;
    forall i | 0 <= i < |r| ensures r[i] == s[k + i] {
      TrimEndKeeps(t, i);
      TrimStartKeeps(s, i);
    }
    forall i | 0 <= i < k ensures IsSpace(s[i]) {
      TrimStartDrops(s, i);
    }
    forall i | k + |r| <= i < |s| ensures IsSpace(s[i]) {
      TrimEndDrops(t, i - k);
      TrimStartKeeps(s, i - k);
    }
    assert StrippedAt(s, Strip(s), k);
  }

  lemma {:induction false} TrimStartSkipsSpace(pre: string, s: string)
    requires AllSpace(pre)
    ensures TrimStart(pre + s) == TrimStart(s)
  {
    if pre == [] {
      assert pre + s == s;
    } else {
      assert IsSpace(pre[0]) && (pre + s)[0] == pre[0];
      assert (pre + s)[1..] == pre[1..] + s;
      assert AllSpace(pre[1..]) by {
        forall i | 0 <= i < |pre[1..]| ensures IsSpace(pre[1..][i]) { assert pre[1..][i] == pre[i + 1]; }
      }
      TrimStartSkipsSpace(pre[1..], s);
    }
  }

  lemma {:induction false} TrimStartAppend(s: string, t: string)
    requires TrimStart(s) != []
    ensures TrimStart(s + t) == TrimStart(s) + t
  {
    assert s != [] && (s + t)[0] == s[0];
    if IsSpace(s[0]) {
      assert TrimStart(s) == TrimStart(s[1..]);
      assert (s + t)[1..] == s[1..] + t;
      assert TrimStart(s + t) == TrimStart(s[1..] + t);
      TrimStartAppend(s[1..], t);
    } else {
      assert TrimStart(s) == s;
      assert TrimStart(s + t) == s + t;
    }
  }

  lemma {:induction false} TrimEndSkipsSpace(s: string, post: string)
    requires AllSpace(post)
    ensures TrimEnd(s + post) == TrimEnd(s)
  {
    if post == [] {
      assert s + post == s;
    } else {
      var last := |post| - 1;
      assert IsSpace(post[last]) && (s + post)[|s + post| - 1] == post[last];
      assert (s + post)[..|s + post| - 1] == s + post[..last];
      assert AllSpace(post[..last]) by {
        forall i | 0 <= i < last ensures IsSpace(post[..last][i]) { assert post[..last][i] == post[i]; }
      }
      TrimEndSkipsSpace(s, post[..last]);
    }
  }

  lemma AllSpaceTrimsAway(s: string)
    requires AllSpace(s)
    ensures TrimStart(s) == []
  {
  }

  lemma StripSkipsLeadingSpace(pre: string, s: string)
    requires AllSpace(pre)
    ensures Strip(pre + s) == Strip(s)
  {
    TrimStartSkipsSpace(pre, s);
  }

  lemma StripSkipsTrailingSpace(s: string, post: string)
    requires AllSpace(post)
    ensures Strip(s + post) == Strip(s)
  {
    if TrimStart(s) == [] {
      assert AllSpace(s + post) by {
        forall i | 0 <= i < |s + post| ensures IsSpace((s + post)[i]) {
          if i < |s| {
            TrimStartDrops(s, i);
            assert (s + post)[i] == s[i];
          } else {
            assert (s + post)[i] == post[i - |s|];
          }
        }
      }
      AllSpaceTrimsAway(s + post);
    } else {
      TrimStartAppend(s, post);
      TrimEndSkipsSpace(TrimStart(s), post);
    }
  }

  /** Whitespace around a name never changes what it strips to: `"  Asha "`
      and `"Asha"` are the same name once stripped. */
  lemma StripIgnoresSurroundingSpace(pre: string, s: string, post: string)
    requires AllSpace(pre) && AllSpace(post)
    ensures Strip(pre + s + post) == Strip(s)
  {
    calc {
      Strip(pre + s + post);
      { assert pre + s + post == pre + (s + post); }
      Strip(pre + (s + post));
      { StripSkipsLeadingSpace(pre, s + post); }
      Strip(s + post);
      { StripSkipsTrailingSpace(s, post); }
      Strip(s);
    }
  }

  /** Stripping twice is stripping once. */
  lemma StripIdempotent(s: string)
    ensures Strip(Strip(s)) == Strip(s)
  {
  }

  lemma StripExample()
    ensures Strip("Asha") == "Asha" && Strip("  Asha ") == "Asha"
  {
    var name := "Asha";
    assert Strip(name) == name by {
      assert !IsSpace(name[0]) && !IsSpace(name[|name| - 1]);
      assert TrimStart(name) == name;
      assert TrimEnd(name) == name;
    }
    assert Strip("  Asha ") == Strip(name) by {
      assert AllSpace("  ") && AllSpace(" ");
      assert "  " + name + " " == "  Asha ";
      StripIgnoresSurroundingSpace("  ", name, " ");
    }
  }
}
