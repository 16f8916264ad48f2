/** Memory files written with the line ends of another platform: `parse` in crates/aide-mcp/src/memory.rs
    reads them as it does its own. */
module MemoryLineEnds {
  import opened Wrappers
  import opened Strings
  import opened MemoryFiles

  /** A text with a carriage return put before every line feed. */
  function CrLf(s: string): string {
    if s == "" then "" else (if s[0] == '\n' then "\r\n" else [s[0]]) + CrLf(s[1..])
  }

  lemma {:induction false} CrLfConcat(a: string, b: string)
    ensures CrLf(a + b) == CrLf(a) + CrLf(b)
  {
    if a == "" {
      assert a + b == b;
    } else {
      assert (a + b)[0] == a[0] && (a + b)[1..] == a[1..] + b;
      CrLfConcat(a[1..], b);
    }
  }

  lemma {:induction false} NothingToEnd(s: string)
    requires '\n' !in s
    ensures CrLf(s) == s
  {
    if s != "" {
      NothingToEnd(s[1..]);
      assert s == [s[0]] + s[1..];
    }
  }

  lemma {:induction false} FeedsFollowReturns(s: string, k: nat)
    requires k < |CrLf(s)| && CrLf(s)[k] == '\n'
    ensures k > 0 && CrLf(s)[k - 1] == '\r'
  {
    var n := if s[0] == '\n' then 2 else 1;
    if k >= n {
      FeedsFollowReturns(s[1..], k - n);
    }
  }

  // -------------------------------------------------------------- searching

  lemma {:induction false} SharedStart(c: string, s: string, p: string)
    ensures StartsWith(c + s, c + p) <==> StartsWith(s, p)
  {
    if |p| <= |s| {
      assert (c + s)[..|c + p|] == c + s[..|p|];
      if c + s[..|p|] == c + p {
        assert (c + s[..|p|])[|c|..] == s[..|p|] && (c + p)[|c|..] == p;
      }
    }
  }

  lemma {:induction false} StartsAlikeCrLf(s: string, p: string)
    requires '\r' !in s && '\r' !in p
    ensures StartsWith(CrLf(s), CrLf(p)) <==> StartsWith(s, p)
    decreases |p|
  {
    if s != "" && p != "" {
      var code := if s[0] == '\n' then "\r\n" else [s[0]];
      if s[0] == p[0] {
        StartsAlikeCrLf(s[1..], p[1..]);
        SharedStart(code, CrLf(s[1..]), CrLf(p[1..]));
        SharedStart([s[0]], s[1..], p[1..]);
        assert s == [s[0]] + s[1..] && p == [s[0]] + p[1..];
      } else {
        StartsAlike(s, p, 0);
        StartsAlike(CrLf(s), CrLf(p), 0);
      }
    }
  }

  lemma {:induction false} FoundStarts(s: string, p: string)
    ensures Find(s, p).Some? ==> exists i :: 0 <= i <= |s| && StartsWith(s[i..], p)
  {
    var r := Find(s, p);
    if r.Some? {
      assert s[r.value..][..|p|] == s[r.value..r.value + |p|];
      assert StartsWith(s[r.value..], p);
    }
  }

  lemma {:induction false} NotFound(s: string, p: string)
    requires forall i :: 0 <= i <= |s| ==> !StartsWith(s[i..], p)
    ensures Find(s, p).None?
  {
    FoundStarts(s, p);
  }

  lemma {:induction false} FindCons(c: char, s: string, p: string)
    ensures var found := Find(s, p);
            Find([c] + s, p) ==
            if StartsWith([c] + s, p) then Some(0) else if found.None? then None else Some(found.value + 1)
  {
    var all := [c] + s;
    var found := Find(s, p);
    assert all[0..] == all;
    assert forall i :: 1 <= i <= |all| ==> all[i..] == s[i - 1..];
    if StartsWith(all, p) {
      FindIs(all, p, 0);
    } else if found.Some? {
      assert all[found.value + 1..found.value + 1 + |p|] == s[found.value..found.value + |p|];
      FindIs(all, p, found.value + 1);
    } else {
      NotFound(all, p);
    }
  }

  /** Past one character, which may have become two. */
  lemma {:induction false} FindsFurther(s: string, p: string)
    requires s != "" && s[0] != '\r' && p != "" && p[0] == '\r' && !StartsWith(CrLf(s), p)
    ensures var found := Find(CrLf(s[1..]), p);
            Find(CrLf(s), p) ==
            if found.None? then None else Some(found.value + if s[0] == '\n' then 2 else 1)
  {
    var tail := CrLf(s[1..]);
    FindCons(s[0], tail, p);
    if s[0] == '\n' {
      BeginsWithLineEnd(s);
      StartsAlike("\n" + tail, p, 0);
      FindCons('\r', "\n" + tail, p);
    }
  }

  lemma {:induction false} OneMoreCrLf(s: string, n: nat)
    requires n < |s|
    ensures |CrLf(s[..n + 1])| == |CrLf(s[1..][..n])| + if s[0] == '\n' then 2 else 1
  {
    assert s[..n + 1][0] == s[0] && s[..n + 1][1..] == s[1..][..n];
  }

  lemma {:induction false} FindsInCrLf(s: string, p: string)
    requires '\r' !in s && '\r' !in p && p != "" && p[0] == '\n'
    ensures var found := Find(s, p);
            Find(CrLf(s), CrLf(p)) == if found.None? then None else Some(|CrLf(s[..found.value])|)
    decreases |s|
  {
    StartsAlikeCrLf(s, p);
    if StartsWith(s, p) {
      FindIs(s, p, 0);
      FindIs(CrLf(s), CrLf(p), 0);
    } else if s == "" {
      NotFound("", p);
      NotFound("", CrLf(p));
    } else {
      FindsInCrLf(s[1..], p);
      FindsOneOn(s, p);
    }
  }

  lemma {:induction false} FindsOneOn(s: string, p: string)
    requires s != "" && '\r' !in s && p != "" && p[0] == '\n'
    requires !StartsWith(s, p) && !StartsWith(CrLf(s), CrLf(p))
    requires var found := Find(s[1..], p);
             Find(CrLf(s[1..]), CrLf(p)) == if found.None? then None else Some(|CrLf(s[1..][..found.value])|)
    ensures var found := Find(s, p);
            Find(CrLf(s), CrLf(p)) == if found.None? then None else Some(|CrLf(s[..found.value])|)
  {
    assert CrLf(p)[0] == '\r';
    assert s == [s[0]] + s[1..];
    FindCons(s[0], s[1..], p);
    FindsFurther(s, CrLf(p));
    var found := Find(s[1..], p);
    if found.Some? {
      OneMoreCrLf(s, found.value);
    }
  }

  // --------------------------------------------------------------- the parts

  lemma {:induction false} SameLines(s: string)
    requires '\r' !in s
    ensures Lines(CrLf(s)) == Lines(s)
    decreases |s|
  {
    var i := IndexOf(s, '\n');
    if i.None? {
      NothingToEnd(s);
    } else {
      var line, rest := s[..i.value], s[i.value + 1..];
      assert s == line + "\n" + rest;
      CrLfConcat(line + "\n", rest);
      CrLfConcat(line, "\n");
      NothingToEnd(line);
      assert CrLf("\n") == "\r\n";
      assert line + "\r\n" == (line + "\r") + "\n";
      LinesCons(line, rest);
      LinesCons(line + "\r", CrLf(rest));
      assert (line + "\r")[..|line|] == line;
      SameLines(rest);
    }
  }

  lemma {:induction false} TrimsAlike(s: string)
    requires '\r' !in s
    ensures TrimNewlines(CrLf(s)) == CrLf(TrimNewlines(s))
    decreases |s|
  {
    if s != "" && s[0] == '\n' {
      TrimsAlike(s[1..]);
      TrimsLineEnd(s);
    } else {
      TrimsNothing(s);
    }
  }

  lemma {:induction false} TrimsLineEnd(s: string)
    requires s != "" && s[0] == '\n'
    ensures TrimNewlines(CrLf(s)) == TrimNewlines(CrLf(s[1..]))
  {
    var tail := CrLf(s[1..]);
    BeginsWithLineEnd(s);
    TrimNewlinesSkips(tail);
    TrimsReturn("\n" + tail);
  }

  lemma {:induction false} BeginsWithLineEnd(s: string)
    requires s != "" && s[0] == '\n'
    ensures CrLf(s) == "\r" + ("\n" + CrLf(s[1..]))
  {
    Pair('\r', '\n', CrLf(s[1..]));
  }

  lemma {:induction false} Pair(a: char, b: char, s: string)
    ensures [a, b] + s == [a] + ([b] + s)
  {
  }

  lemma {:induction false} TrimsNothing(s: string)
    requires s != "" ==> s[0] != '\r' && s[0] != '\n'
    ensures TrimNewlines(s) == s && TrimNewlines(CrLf(s)) == CrLf(s)
  {
    if s != "" {
      assert CrLf(s)[0] == s[0];
    }
  }

  lemma {:induction false} TrimsReturn(s: string)
    ensures TrimNewlines("\r" + s) == TrimNewlines(s)
  {
    assert ("\r" + s)[1..] == s;
  }

  lemma {:induction false} DelimitersEnd()
    ensures CrLf("---\n") == "---\r\n" && CrLf("\n---\n") == "\r\n---\r\n"
  {
    NothingToEnd("---");
    CrLfConcat("---", "\n");
    CrLfConcat("\n", "---\n");
    assert CrLf("\n") == "\r\n";
    assert "---\n" == "---" + "\n" && "\n---\n" == "\n" + "---\n";
    assert "---" + "\r\n" == "---\r\n" && "\r\n" + "---\r\n" == "\r\n---\r\n";
  }

  lemma {:induction false} NoFrontMatter(raw: string)
    requires '\r' !in raw && !StartsWith(raw, "---\n")
    ensures FrontMatter(raw).None? && FrontMatter(CrLf(raw)).None?
  {
    DelimitersEnd();
    StartsAlikeCrLf(raw, "---\n");
    if StartsWith(CrLf(raw), "---\n") {
      StartsAlike(CrLf(raw), "---\n", 2);
      StartsAlike(CrLf(raw), "---\n", 3);
      FeedsFollowReturns(raw, 3);
    }
    if StartsWith(raw, "---\r\n") {
      StartsAlike(raw, "---\r\n", 3);
    }
  }

  lemma {:induction false} OpensAlike(raw: string, rest: string)
    requires '\r' !in raw && raw == "---\n" + rest
    ensures Delimiters(raw) == ("---\n", "\n---\n") && StripPrefix(raw, "---\n") == Some(rest)
    ensures Delimiters(CrLf(raw)) == ("---\r\n", "\r\n---\r\n")
    ensures StripPrefix(CrLf(raw), "---\r\n") == Some(CrLf(rest))
  {
    DelimitersEnd();
    CrLfConcat("---\n", rest);
    if StartsWith(raw, "---\r\n") {
      StartsAlike(raw, "---\r\n", 3);
    }
  }

  lemma {:induction false} SameFrontMatter(raw: string)
    requires '\r' !in raw && StartsWith(raw, "---\n")
    ensures match FrontMatter(raw)
            case None => FrontMatter(CrLf(raw)).None?
            case Some((fields, at)) =>
              '\r' !in fields && FrontMatter(CrLf(raw)) == Some((CrLf(fields), |CrLf(raw[..at])|))
  {
    var rest := raw[4..];
    assert raw == "---\n" + rest;
    OpensAlike(raw, rest);
    DelimitersEnd();
    FindsInCrLf(rest, "\n---\n");
    var end := Find(rest, "\n---\n");
    if end.Some? {
      ClosesAlike(raw, rest, end.value);
    }
  }

  lemma {:induction false} ClosesAlike(raw: string, rest: string, end: nat)
    requires raw == "---\n" + rest && end + 5 <= |rest| && rest[end..end + 5] == "\n---\n"
    ensures |CrLf(raw[..end + 9])| == |CrLf(rest[..end])| + 12
    ensures |CrLf(rest[..end])| <= |CrLf(rest)| && CrLf(rest)[..|CrLf(rest[..end])|] == CrLf(rest[..end])
  {
    DelimitersEnd();
    assert raw[..end + 9] == "---\n" + (rest[..end] + "\n---\n");
    CrLfConcat("---\n", rest[..end] + "\n---\n");
    CrLfConcat(rest[..end], "\n---\n");
    assert rest == rest[..end] + rest[end..];
    CrLfConcat(rest[..end], rest[end..]);
  }

  /** A file parses the same whichever line ends it has: the same name and description, and the same body
      but for its line ends. */
  lemma {:induction false} LineEndsDoNotMatter(defaultName: string, raw: string)
    requires '\r' !in raw
    ensures var m := Parsed(defaultName, raw);
            Parsed(defaultName, CrLf(raw)) == Memory(m.name, m.description, CrLf(m.content))
  {
    if StartsWith(raw, "---\n") {
      SameFrontMatter(raw);
    } else {
      NoFrontMatter(raw);
    }
    var front := FrontMatter(raw);
    if front.Some? {
      var (fields, at) := front.value;
      SameLines(fields);
      SameBody(raw, at);
    } else {
      TrimsAlike(raw);
    }
  }

  lemma {:induction false} SameBody(raw: string, at: nat)
    requires '\r' !in raw && at <= |raw|
    ensures |CrLf(raw[..at])| <= |CrLf(raw)|
    ensures TrimNewlines(CrLf(raw)[|CrLf(raw[..at])|..]) == CrLf(TrimNewlines(raw[at..]))
  {
    assert raw == raw[..at] + raw[at..];
    CrLfConcat(raw[..at], raw[at..]);
    assert CrLf(raw)[|CrLf(raw[..at])|..] == CrLf(raw[at..]);
    TrimsAlike(raw[at..]);
  }
}
