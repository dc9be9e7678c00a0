/** The course catalog and the live search over it (`filteredCourses`). */
module Courses {
  import opened Text

  datatype Level = Beginner | Intermediate | Advanced

  /** One entry of the fixed catalog. */
  datatype Course = Course(
    code: string,
    name: string,
    level: Level,
    duration: string,
    credits: int,
    prerequisites: string)

  const Intro := Course("CS101", "Introduction to Programming", Beginner, "16 weeks", 3, "None")
  const DataStructures := Course("CS201", "Data Structures", Intermediate, "16 weeks", 4, "CS101")
  const Ai := Course("CS301", "Artificial Intelligence", Advanced, "16 weeks", 4, "CS201, MATH201")
  const Networks := Course("NET101", "Network Fundamentals", Beginner, "16 weeks", 3, "None")
  const Security := Course("SEC201", "Cybersecurity Basics", Intermediate, "16 weeks", 4, "NET101")
  const Web := Course("WEB301", "Advanced Web Development", Advanced, "16 weeks", 4, "CS201")

  /** The six hard-coded courses, in display order. */
  function Catalog(): (cs: seq<Course>)
    ensures |cs| == 6
  {
    [Intro, DataStructures, Ai, Networks, Security, Web]
  }

  /** The filter's predicate: the lower-cased query occurs in the lower-cased
      name or in the lower-cased code. */
  predicate Matches(c: Course, q: string)
    ensures q == "" ==> Matches(c, q)
    ensures Matches(c, q) ==> |q| <= |c.name| || |q| <= |c.code|
  {
    Contains(Lower(c.name), Lower(q)) || Contains(Lower(c.code), Lower(q))
  }

  /** `courses.filter(...)`: the courses that match, in catalog order. */
  function Filter(cs: seq<Course>, q: string): (r: seq<Course>)
    ensures |r| <= |cs|
  {
    if cs == [] then []
    else if Matches(cs[0], q) then [cs[0]] + Filter(cs[1..], q)
    else Filter(cs[1..], q)
  }

  /** A course is shown exactly when it is in the list and matches the query. */
  lemma {:induction false} FilterMembership(cs: seq<Course>, q: string, c: Course)
    ensures c in Filter(cs, q) <==> c in cs && Matches(c, q)
  {
    if cs != [] {
      FilterMembership(cs[1..], q, c);
      assert cs == [cs[0]] + cs[1..];
    }
  }

  /** Filtering distributes over concatenation: the filter never reorders
      entries across a split point. */
  lemma {:induction false} FilterConcat(a: seq<Course>, b: seq<Course>, q: string)
    ensures Filter(a + b, q) == Filter(a, q) + Filter(b, q)
  {
    if a == [] {
      assert a + b == b;
    } else {
      assert (a + b)[0] == a[0];
      assert (a + b)[1..] == a[1..] + b;
      FilterConcat(a[1..], b, q);
    }
  }

  /** Filtering a list extended by one course at the end. */
  lemma FilterSnoc(cs: seq<Course>, c: Course, q: string)
    ensures Filter(cs + [c], q) == Filter(cs, q) + (if Matches(c, q) then [c] else [])
  {
    FilterConcat(cs, [c], q);
    assert [c][1..] == [];
  }

  /** A strictly increasing sequence of indices into a list of length n. */
  ghost predicate IncreasingIndices(idx: seq<nat>, n: nat)
  {
    (forall k :: 0 <= k < |idx| ==> idx[k] < n) &&
    (forall k, l :: 0 <= k < l < |idx| ==> idx[k] < idx[l])
  }

  /** The result is the subsequence of `cs` picked by the strictly increasing
      positions `idx`, and a position is picked exactly when its course
      matches: a stable filter, not a re-sort. */
  lemma FilterSubsequence(cs: seq<Course>, q: string) returns (idx: seq<nat>)
    ensures |idx| == |Filter(cs, q)|
    ensures IncreasingIndices(idx, |cs|)
    ensures forall k :: 0 <= k < |idx| ==> Filter(cs, q)[k] == cs[idx[k]]
    ensures forall i :: 0 <= i < |cs| ==> (i in idx <==> Matches(cs[i], q))
  {
    idx := PrefixSubsequence(cs, q, |cs|);
    assert cs[..|cs|] == cs;
  }

  /** `FilterSubsequence` for the first n courses, by induction on n. */
  lemma {:induction false} PrefixSubsequence(cs: seq<Course>, q: string, n: nat) returns (idx: seq<nat>)
    requires n <= |cs|
    ensures |idx| == |Filter(cs[..n], q)|
    ensures IncreasingIndices(idx, n)
    ensures forall k :: 0 <= k < |idx| ==> Filter(cs[..n], q)[k] == cs[idx[k]]
    ensures forall i :: 0 <= i < n ==> (i in idx <==> Matches(cs[i], q))
  {
    if n == 0 {
      idx := [];
    } else {
      var prev := PrefixSubsequence(cs, q, n - 1);
      var c := cs[n - 1];
      assert cs[..n] == cs[..n - 1] + [c];
      FilterSnoc(cs[..n - 1], c, q);
      var before, after := Filter(cs[..n - 1], q), Filter(cs[..n], q);
      if Matches(c, q) {
        idx := prev + [n - 1];
        AppendIndex(prev, n - 1);
        assert after == before + [c];
        forall k | 0 <= k < |idx|
          ensures after[k] == cs[idx[k]]
        {
          if k < |prev| {
            assert after[k] == before[k];
          }
        }
      } else {
        idx := prev;
        assert after == before;
      }
    }
  }

  /** Appending the next position keeps the indices increasing. */
  lemma AppendIndex(idx: seq<nat>, n: nat)
    requires IncreasingIndices(idx, n)
    ensures IncreasingIndices(idx + [n], n + 1)
    ensures forall i :: i in idx + [n] <==> i in idx || i == n
  {
  }

  /** A list whose every course matches is returned unchanged. */
  lemma {:induction false} FilterAllMatch(cs: seq<Course>, q: string)
    requires forall i :: 0 <= i < |cs| ==> Matches(cs[i], q)
    ensures Filter(cs, q) == cs
  {
    if cs != [] {
      FilterAllMatch(cs[1..], q);
      assert cs == [cs[0]] + cs[1..];
    }
  }

  /** A list in which no course matches filters to nothing. */
  lemma {:induction false} FilterNoneMatch(cs: seq<Course>, q: string)
    requires forall i :: 0 <= i < |cs| ==> !Matches(cs[i], q)
    ensures Filter(cs, q) == []
  {
    if cs != [] {
      FilterNoneMatch(cs[1..], q);
    }
  }

  /** The empty query matches every course (the empty string is contained in
      every string), so the whole list comes back in its original order. */
  lemma FilterEmptyQuery(cs: seq<Course>)
    ensures Filter(cs, "") == cs
  {
    forall i | 0 <= i < |cs|
      ensures Matches(cs[i], "")
    {
      assert Lower("") == "";
      ContainsEmpty(Lower(cs[i].name));
    }
    FilterAllMatch(cs, "");
  }

  /** Re-filtering with the same query changes nothing. */
  lemma FilterIdempotent(cs: seq<Course>, q: string)
    ensures Filter(Filter(cs, q), q) == Filter(cs, q)
  {
    var r := Filter(cs, q);
    forall i | 0 <= i < |r|
      ensures Matches(r[i], q)
    {
      FilterMembership(cs, q, r[i]);
    }
    FilterAllMatch(r, q);
  }

  /** The search depends on the query only through its lower-cased form, so
      queries that differ only in letter case give the same courses. */
  lemma {:induction false} FilterCaseInsensitive(cs: seq<Course>, q1: string, q2: string)
    requires Lower(q1) == Lower(q2)
    ensures Filter(cs, q1) == Filter(cs, q2)
  {
    if cs != [] {
      FilterCaseInsensitive(cs[1..], q1, q2);
    }
  }

  /** Lower-casing the query first does not change the search. */
  lemma FilterLowerQuery(cs: seq<Course>, q: string)
    ensures Filter(cs, Lower(q)) == Filter(cs, q)
  {
    LowerIdempotent(q);
    FilterCaseInsensitive(cs, Lower(q), q);
  }

  /** When the course at position j is the only one that matches, the result
      is that course alone. */
  lemma FilterExactlyOne(cs: seq<Course>, q: string, j: nat)
    requires j < |cs| && Matches(cs[j], q)
    requires forall i :: 0 <= i < |cs| && i != j ==> !Matches(cs[i], q)
    ensures Filter(cs, q) == [cs[j]]
  {
    var before, after := cs[..j], cs[j + 1..];
    assert cs == before + ([cs[j]] + after);
    FilterConcat(before, [cs[j]] + after, q);
    FilterConcat([cs[j]], after, q);
    FilterNoneMatch(before, q);
    FilterNoneMatch(after, q);
    assert Filter([cs[j]], q) == [cs[j]] + Filter([], q);
  }

  /** A three-character query is not found in a string in which no three
      consecutive characters spell it. */
  lemma NoTrigram(s: string, q: string)
    requires |q| == 3
    requires forall i :: 0 <= i && i + 2 < |s| ==> s[i] != q[0] || s[i + 1] != q[1] || s[i + 2] != q[2]
    ensures !Contains(s, q)
  {
    forall i ensures !OccursAt(s, q, i) {
      if 0 <= i && i + 3 <= |s| {
        var w := s[i..i + 3];
        assert w[0] == s[i] && w[1] == s[i + 1] && w[2] == s[i + 2];
      }
    }
    ContainsSpec(s, q);
  }

  /** The lower-cased name and code of each catalog course. */
  lemma LoweredIntro()
    ensures Lower(Intro.name) == "introduction to programming" && Lower(Intro.code) == "cs101"
  {
  }

  lemma LoweredDataStructures()
    ensures Lower(DataStructures.name) == "data structures" && Lower(DataStructures.code) == "cs201"
  {
  }

  lemma LoweredAi()
    ensures Lower(Ai.name) == "artificial intelligence" && Lower(Ai.code) == "cs301"
  {
  }

  lemma LoweredNetworks()
    ensures Lower(Networks.name) == "network fundamentals" && Lower(Networks.code) == "net101"
  {
  }

  lemma LoweredSecurity()
    ensures Lower(Security.name) == "cybersecurity basics" && Lower(Security.code) == "sec201"
  {
  }

  lemma LoweredWeb()
    ensures Lower(Web.name) == "advanced web development" && Lower(Web.code) == "web301"
  {
  }

  /** "net" never occurs in "artificial intelligence" or in "advanced web
      development", although each holds all three letters. */
  lemma AiLacksNet()
    ensures !Contains("artificial intelligence", "net")
  {
    NoTrigram("artificial intelligence", "net");
  }

  lemma WebLacksNet()
    ensures !Contains("advanced web development", "net")
  {
    NoTrigram("advanced web development", "net");
  }

  /** The lower-cased names of the courses other than NET101 do not contain
      "net". */
  lemma IntroNameLacksNet()
    ensures !Contains(Lower(Intro.name), "net")
  {
    LoweredIntro();
    MissingChar("introduction to programming", "net", 'e');
  }

  lemma DataStructuresNameLacksNet()
    ensures !Contains(Lower(DataStructures.name), "net")
  {
    LoweredDataStructures();
    MissingChar("data structures", "net", 'n');
  }

  lemma AiNameLacksNet()
    ensures !Contains(Lower(Ai.name), "net")
  {
    LoweredAi();
    AiLacksNet();
  }

  lemma SecurityNameLacksNet()
    ensures !Contains(Lower(Security.name), "net")
  {
    LoweredSecurity();
    MissingChar("cybersecurity basics", "net", 'n');
  }

  lemma WebNameLacksNet()
    ensures !Contains(Lower(Web.name), "net")
  {
    LoweredWeb();
    WebLacksNet();
  }

  /** No catalog course other than NET101 has "net" in its name or code. */
  lemma NetMisses(k: nat)
    requires k < 6 && k != 3
    ensures !Matches(Catalog()[k], "net")
  {
    var q := "net";
    assert Lower(q) == q;
    if k == 0 {
      IntroNameLacksNet();
      LoweredIntro();
      MissingChar("cs101", q, 'n');
    } else if k == 1 {
      DataStructuresNameLacksNet();
      LoweredDataStructures();
      MissingChar("cs201", q, 'n');
    } else if k == 2 {
      AiNameLacksNet();
      LoweredAi();
      MissingChar("cs301", q, 'n');
    } else if k == 4 {
      SecurityNameLacksNet();
      LoweredSecurity();
      MissingChar("sec201", q, 'n');
    } else {
      WebNameLacksNet();
      LoweredWeb();
      MissingChar("web301", q, 'n');
    }
  }

  /** On the catalog, the query "net" shows exactly NET101: its code starts
      with "net", and no other name or code contains it. */
  lemma NetQueryExample()
    ensures Filter(Catalog(), "net") == [Catalog()[3]]
  {
    var cs, q := Catalog(), "net";
    assert Lower(q) == q;
    LoweredNetworks();
    assert "net101"[0..][..3] == q;
    assert Matches(cs[3], q);
    forall k | 0 <= k < |cs| && k != 3 ensures !Matches(cs[k], q) {
      NetMisses(k);
    }
    FilterExactlyOne(cs, q, 3);
  }

  /** WEB301's lower-cased name is the query "advanced web development",
      which lower-cases to itself. */
  lemma WebMatchesWeb()
    ensures Matches(Web, "advanced web development")
  {
    LoweredWeb();
    LowerIdempotent(Web.name);
    ContainsSelf(Lower(Web.name));
  }

  /** CS101's lower-cased name "introduction to programming" has no 'v'. */
  lemma IntroMissesWeb()
    ensures !Matches(Intro, "advanced web development")
  {
    LoweredWeb();
    LowerIdempotent(Web.name);
    LoweredIntro();
    MissingChar("introduction to programming", "advanced web development", 'v');
  }

  /** No catalog course other than WEB301 matches "advanced web development":
      it is too long for the other names and for every code, except for the
      name of CS101. */
  lemma WebMisses(k: nat)
    requires k < 5
    ensures !Matches(Catalog()[k], "advanced web development")
  {
    if k == 0 {
      IntroMissesWeb();
    }
  }

  /** On the catalog, the query "advanced web development" shows exactly
      WEB301, whose lower-cased name it is. */
  lemma WebQueryExample()
    ensures Filter(Catalog(), "advanced web development") == [Catalog()[5]]
  {
    WebMatchesWeb();
    forall k | 0 <= k < 5 ensures !Matches(Catalog()[k], "advanced web development") {
      WebMisses(k);
    }
    FilterExactlyOne(Catalog(), "advanced web development", 5);
  }

  /** The lower-cased names of NET101 and WEB301 do not contain "cs". */
  lemma NetworksNameLacksCs()
    ensures !Contains(Lower(Networks.name), "cs")
  {
    LoweredNetworks();
    MissingChar("network fundamentals", "cs", 'c');
  }

  lemma WebNameLacksCs()
    ensures !Contains(Lower(Web.name), "cs")
  {
    LoweredWeb();
    MissingChar("advanced web development", "cs", 's');
  }

  /** Neither NET101 nor WEB301 has "cs" in its name or code. */
  lemma CsMisses(k: nat)
    requires k == 3 || k == 5
    ensures !Matches(Catalog()[k], "cs")
  {
    var q := "cs";
    assert Lower(q) == q;
    if k == 3 {
      NetworksNameLacksCs();
      LoweredNetworks();
      MissingChar("net101", q, 'c');
    } else {
      WebNameLacksCs();
      LoweredWeb();
      MissingChar("web301", q, 'c');
    }
  }

  /** CS101, CS201 and CS301 have codes starting with "cs", and SEC201's
      lower-cased name "cybersecurity basics" ends in "cs". */
  lemma CsHits(k: nat)
    requires k < 6 && k != 3 && k != 5
    ensures Matches(Catalog()[k], "cs")
  {
    var q := "cs";
    assert Lower(q) == q;
    if k == 0 {
      LoweredIntro();
      assert "cs101"[0..][..2] == q;
    } else if k == 1 {
      LoweredDataStructures();
      assert "cs201"[0..][..2] == q;
    } else if k == 2 {
      LoweredAi();
      assert "cs301"[0..][..2] == q;
    } else {
      LoweredSecurity();
      assert OccursAt("cybersecurity basics", q, 18);
      ContainsSpec("cybersecurity basics", q);
    }
  }

  /** On the catalog, "cs", "CS" and "Cs" give one and the same list:
      CS101, CS201, CS301 and SEC201. */
  lemma CsQueryExample()
    ensures Filter(Catalog(), "CS") == Filter(Catalog(), "cs") == Filter(Catalog(), "Cs")
    ensures Filter(Catalog(), "cs") == [Catalog()[0], Catalog()[1], Catalog()[2], Catalog()[4]]
  {
    var cs := Catalog();
    assert Lower("CS") == Lower("cs") == Lower("Cs");
    FilterCaseInsensitive(cs, "CS", "cs");
    FilterCaseInsensitive(cs, "cs", "Cs");
    CsHits(0);
    CsHits(1);
    CsHits(2);
    CsHits(4);
    CsMisses(3);
    CsMisses(5);
    FilterFour(cs, "cs");
  }

  /** Filtering a six-course list whose fourth and sixth courses alone fail
      to match. */
  lemma FilterFour(cs: seq<Course>, q: string)
    requires |cs| == 6
    requires Matches(cs[0], q) && Matches(cs[1], q) && Matches(cs[2], q) && Matches(cs[4], q)
    requires !Matches(cs[3], q) && !Matches(cs[5], q)
    ensures Filter(cs, q) == [cs[0], cs[1], cs[2], cs[4]]
  {
    assert cs == cs[..3] + ([cs[3]] + ([cs[4]] + [cs[5]]));
    FilterAllMatch(cs[..3], q);
    FilterConcat(cs[..3], [cs[3]] + ([cs[4]] + [cs[5]]), q);
    FilterConcat([cs[3]], [cs[4]] + [cs[5]], q);
    FilterConcat([cs[4]], [cs[5]], q);
    FilterSnoc([], cs[3], q);
    FilterSnoc([], cs[4], q);
    FilterSnoc([], cs[5], q);
    assert [] + [cs[3]] == [cs[3]] && [] + [cs[4]] == [cs[4]] && [] + [cs[5]] == [cs[5]];
  }
}
