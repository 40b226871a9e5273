/** The backtracking pass against a stack of path segments, as in section 5.2.4
    of RFC 3986: each slash-terminated ".." removes the segment before it. */
module Segments {
  import opened CText
  import opened Sanitise

  predicate SlashFree(seg: string) { '/' !in seg }
  predicate AllSlashFree(segs: seq<string>) { forall seg <- segs :: SlashFree(seg) }

  /** Every segment behind its slash. */
  function Join(segs: seq<string>): (text: string) {
    if segs == [] then "" else "/" + segs[0] + Join(segs[1..])
  }

  /** The segments of a path behind its first slash. */
  function Split(s: string): (segs: seq<string>)
    ensures segs != [] && AllSlashFree(segs)
  {
    if s == "" then [""]
    else
      var rest := Split(s[1..]);
      if s[0] == '/' then [""] + rest
      else
        assert rest[0] in rest && forall seg <- rest[1..] :: seg in rest;
        [[s[0]] + rest[0]] + rest[1..]
  }

  /** A path without its first character. */
  function Behind(path: string): (text: string) { if path == "" then "" else path[1..] }

  lemma {:induction false} JoinSplit(s: string)
    ensures Join(Split(s)) == "/" + s
  {
    if s == "" {
      assert Join([""]) == "/" + "" + Join([""][1..]);
    } else {
      var rest := Split(s[1..]);
      JoinSplit(s[1..]);
      if s[0] == '/' {
        assert ([""] + rest)[1..] == rest;
        assert Join([""] + rest) == "/" + "" + Join(rest);
      } else {
        PrependToJoin(s[0], rest);
        assert "/" + s == "/" + ([s[0]] + s[1..]);
        assert ("/" + s[1..])[1..] == s[1..];
      }
    }
  }

  lemma PrependToJoin(c: char, rest: seq<string>)
    requires rest != []
    ensures Join([[c] + rest[0]] + rest[1..]) == "/" + ([c] + Join(rest)[1..])
  {
    hide Join;
    var segs, tail := [[c] + rest[0]] + rest[1..], Join(rest[1..]);
    assert segs[1..] == rest[1..];
    JoinStep(segs);
    JoinStep(rest);
    Regrouped(c, rest[0], tail);
  }

  lemma JoinStep(segs: seq<string>)
    requires segs != []
    ensures Join(segs) == "/" + segs[0] + Join(segs[1..])
  {
  }

  lemma Regrouped(c: char, seg: string, tail: string)
    ensures "/" + ([c] + seg) + tail == "/" + ([c] + ("/" + seg + tail)[1..])
  {
    assert ("/" + seg + tail)[1..] == seg + tail;
  }

  lemma {:induction false} JoinAppend(segs: seq<string>, seg: string)
    ensures Join(segs + [seg]) == Join(segs) + ("/" + seg)
  {
    if segs == [] {
      assert [seg][1..] == [];
      assert Join([seg]) == "/" + seg + "";
    } else {
      assert (segs + [seg])[1..] == segs[1..] + [seg];
      JoinAppend(segs[1..], seg);
    }
  }

  function Slashes(s: string): (n: nat) {
    if s == "" then 0 else (if s[0] == '/' then 1 else 0) + Slashes(s[1..])
  }

  lemma {:induction false} SlashesConcat(s: string, t: string)
    ensures Slashes(s + t) == Slashes(s) + Slashes(t)
  {
    if s == "" {
      assert s + t == t;
    } else {
      assert (s + t)[1..] == s[1..] + t;
      SlashesConcat(s[1..], t);
    }
  }

  lemma {:induction false} SlashFreeHasNone(seg: string)
    requires SlashFree(seg)
    ensures Slashes(seg) == 0
  {
    if seg != "" { SlashFreeHasNone(seg[1..]); }
  }

  lemma {:induction false} SlashesOfJoin(segs: seq<string>)
    requires AllSlashFree(segs)
    ensures Slashes(Join(segs)) == |segs|
  {
    if segs != [] {
      SlashFreeHasNone(segs[0]);
      SlashesOfJoin(segs[1..]);
      SlashesConcat("/" + segs[0], Join(segs[1..]));
      SlashesConcat("/", segs[0]);
    }
  }

  // ----- The two machines over segments -----

  /** The pointer pass: after a "..", until the next segment is copied, there is
      nothing to go back over, and a further ".." removes nothing. */
  function PointerRun(segs: seq<string>, stack: seq<string>, popped: bool): (r: seq<string>)
    requires popped || stack != []
  {
    if segs == [] then stack
    else if segs[0] == ".." && |segs| > 1 then
      PointerRun(segs[1..], if popped then stack else stack[..|stack| - 1], true)
    else PointerRun(segs[1..], stack + [segs[0]], false)
  }

  /** The segment stack. */
  function StackRun(segs: seq<string>, stack: seq<string>): (r: seq<string>) {
    if segs == [] then stack
    else if segs[0] == ".." && |segs| > 1 then StackRun(segs[1..], if stack == [] then [] else stack[..|stack| - 1])
    else StackRun(segs[1..], stack + [segs[0]])
  }

  /** No ".." directly after another finds a segment it would have to remove. */
  predicate NoDeepAdjacent(segs: seq<string>, stack: seq<string>, after: bool) {
    segs != [] ==>
      if segs[0] == ".." && |segs| > 1 then
        && (after ==> stack == [])
        && NoDeepAdjacent(segs[1..], if stack == [] then [] else stack[..|stack| - 1], true)
      else NoDeepAdjacent(segs[1..], stack + [segs[0]], false)
  }

  predicate NoAdjacentDots(segs: seq<string>) {
    forall i :: 0 <= i < |segs| - 1 ==> !(segs[i] == ".." && segs[i + 1] == "..")
  }

  // ----- The character pass is the pointer machine -----

  /** Where the write pointer would go back to. */
  function Last(stack: seq<string>, popped: bool): (n: nat)
    requires popped || stack != []
  {
    if popped then |Join(stack)| else |Join(stack[..|stack| - 1])|
  }

  lemma LastFits(stack: seq<string>, popped: bool)
    requires popped || stack != []
    ensures Last(stack, popped) <= |Join(stack)|
    ensures !popped ==> Join(stack)[..Last(stack, popped)] == Join(stack[..|stack| - 1])
  {
    if !popped {
      var n := |stack| - 1;
      assert stack == stack[..n] + [stack[n]];
      JoinAppend(stack[..n], stack[n]);
    }
  }

  /** Characters that are not slashes are copied. */
  lemma {:induction false} CopySegment(seg: string, rest: string, out: string, last: nat)
    requires SlashFree(seg) && last <= |out|
    ensures Pass3(seg + rest, out, last) == Pass3(rest, out + seg, last)
  {
    if seg == "" {
      assert seg + rest == rest && out + seg == out;
    } else {
      var s := seg + rest;
      assert s[0] == seg[0] && seg[0] in seg && s[1..] == seg[1..] + rest;
      CopySegment(seg[1..], rest, out + [seg[0]], last);
      assert out + [seg[0]] + seg[1..] == out + seg;
    }
  }

  lemma JoinStart(segs: seq<string>)
    ensures CharAt(Join(segs), 0) == if segs == [] then '\0' else '/'
  {
  }

  /** "/../" starts the joined path just when its first segment is ".." and not
      its last. */
  lemma DotDotFirst(segs: seq<string>)
    requires segs != [] && AllSlashFree(segs)
    ensures SlashDotDot(Join(segs), 0) <==> segs[0] == ".." && |segs| > 1
    ensures segs[0] == ".." ==> Join(segs)[3..] == Join(segs[1..])
  {
    var seg, rest := segs[0], Join(segs[1..]);
    assert seg in segs;
    JoinStart(segs[1..]);
    DotDotSegment(seg, rest);
    if seg == ".." {
      assert Join(segs)[3..] == rest;
    }
  }

  lemma DotDotSegment(seg: string, rest: string)
    requires SlashFree(seg) && (rest != "" ==> rest[0] == '/')
    ensures SlashDotDot("/" + seg + rest, 0) <==> seg == ".." && rest != ""
  {
    var s := "/" + seg + rest;
    assert forall i: nat :: i < |seg| ==> s[1 + i] == seg[i] && seg[i] in seg;
    if |seg| == 0 {
      assert rest != "" ==> s[1] == rest[0];
    } else if |seg| == 1 {
      assert rest != "" ==> s[2] == rest[0];
    } else if |seg| == 2 {
      assert rest != "" ==> s[3] == rest[0];
      assert seg == [seg[0], seg[1]];
    } else {
      assert s[3] == seg[2];
    }
  }

  lemma {:induction false} PointerPass(segs: seq<string>, stack: seq<string>, popped: bool)
    requires AllSlashFree(segs) && (popped || stack != [])
    ensures Last(stack, popped) <= |Join(stack)|
    ensures Pass3(Join(segs), Join(stack), Last(stack, popped)) == Join(PointerRun(segs, stack, popped))
  {
    LastFits(stack, popped);
    if segs != [] {
      var s, out, last := Join(segs), Join(stack), Last(stack, popped);
      DotDotFirst(segs);
      if segs[0] == ".." && |segs| > 1 {
        var shorter := if popped then stack else stack[..|stack| - 1];
        assert out[..last] == Join(shorter) && last == |Join(shorter)|;
        assert Pass3(s, out, last) == Pass3(s[3..], out[..last], last);
        PointerPass(segs[1..], shorter, true);
      } else {
        assert s[0] == '/' && s[1..] == segs[0] + Join(segs[1..]);
        assert Pass3(s, out, last) == Pass3(s[1..], out + ['/'], |out|);
        CopySegment(segs[0], Join(segs[1..]), out + ['/'], |out|);
        JoinAppend(stack, segs[0]);
        assert out + ['/'] + segs[0] == out + ("/" + segs[0]);
        assert (stack + [segs[0]])[..|stack|] == stack;
        PointerPass(segs[1..], stack + [segs[0]], false);
      }
    }
  }

  // ----- When the two machines agree -----

  lemma {:induction false} CleanRunsAgree(segs: seq<string>, stack: seq<string>, popped: bool)
    requires popped || stack != []
    requires NoDeepAdjacent(segs, stack, popped)
    ensures PointerRun(segs, stack, popped) == StackRun(segs, stack)
  {
    if segs != [] {
      if segs[0] == ".." && |segs| > 1 {
        CleanRunsAgree(segs[1..], if stack == [] then [] else stack[..|stack| - 1], true);
      } else {
        CleanRunsAgree(segs[1..], stack + [segs[0]], false);
      }
    }
  }

  /** Once the pointer pass has kept a segment too many, it never catches up. */
  lemma {:induction false} LongerStaysLonger(segs: seq<string>, pointer: seq<string>, stack: seq<string>, popped: bool)
    requires |pointer| > |stack| && (popped || stack != [])
    ensures |PointerRun(segs, pointer, popped)| > |StackRun(segs, stack)|
  {
    if segs != [] {
      if segs[0] == ".." && |segs| > 1 {
        LongerStaysLonger(segs[1..], if popped then pointer else pointer[..|pointer| - 1],
                          if stack == [] then [] else stack[..|stack| - 1], true);
      } else {
        LongerStaysLonger(segs[1..], pointer + [segs[0]], stack + [segs[0]], false);
      }
    }
  }

  lemma {:induction false} DeepRunsDiffer(segs: seq<string>, stack: seq<string>, popped: bool)
    requires popped || stack != []
    requires !NoDeepAdjacent(segs, stack, popped)
    ensures |PointerRun(segs, stack, popped)| > |StackRun(segs, stack)|
  {
    if segs[0] == ".." && |segs| > 1 {
      var shorter := if stack == [] then [] else stack[..|stack| - 1];
      if popped && stack != [] {
        LongerStaysLonger(segs[1..], stack, shorter, true);
      } else {
        DeepRunsDiffer(segs[1..], shorter, true);
      }
    } else {
      DeepRunsDiffer(segs[1..], stack + [segs[0]], false);
    }
  }

  lemma {:induction false} RunsAreSlashFree(segs: seq<string>, stack: seq<string>, popped: bool)
    requires AllSlashFree(segs) && AllSlashFree(stack)
    ensures AllSlashFree(StackRun(segs, stack))
    ensures popped || stack != [] ==> AllSlashFree(PointerRun(segs, stack, popped))
  {
    if segs != [] {
      if segs[0] == ".." && |segs| > 1 {
        RunsAreSlashFree(segs[1..], if stack == [] then [] else stack[..|stack| - 1], true);
        RunsAreSlashFree(segs[1..], stack, true);
      } else {
        RunsAreSlashFree(segs[1..], stack + [segs[0]], false);
      }
    }
  }

  /** On an absolute path the pointer pass computes what the segment stack does
      if and only if no ".." directly after another ".." has a segment left to
      remove. */
  lemma PointerPassIsStackExactly(path: string)
    requires path != "" && path[0] == '/'
    ensures var segs := Split(path[1..]);
            Pass3(path, "", 0) == Join(StackRun(segs, [])) <==> NoDeepAdjacent(segs, [], true)
  {
    var segs := Split(path[1..]);
    JoinSplit(path[1..]);
    assert Join(segs) == path;
    PointerPass(segs, [], true);
    if NoDeepAdjacent(segs, [], true) {
      CleanRunsAgree(segs, [], true);
    } else {
      DeepRunsDiffer(segs, [], true);
      RunsAreSlashFree(segs, [], true);
      SlashesOfJoin(PointerRun(segs, [], true));
      SlashesOfJoin(StackRun(segs, []));
    }
  }

  lemma {:induction false} NoAdjacentIsEnough(segs: seq<string>, stack: seq<string>, after: bool)
    requires NoAdjacentDots(segs)
    requires after && stack != [] ==> segs == [] || segs[0] != ".."
    ensures NoDeepAdjacent(segs, stack, after)
  {
    if segs != [] {
      assert NoAdjacentDots(segs[1..]) by {
        forall i | 0 <= i < |segs[1..]| - 1
          ensures !(segs[1..][i] == ".." && segs[1..][i + 1] == "..")
        {
          assert segs[1..][i] == segs[i + 1];
        }
      }
      if segs[0] == ".." && |segs| > 1 {
        assert segs[1] != "..";
        NoAdjacentIsEnough(segs[1..], if stack == [] then [] else stack[..|stack| - 1], true);
      } else {
        NoAdjacentIsEnough(segs[1..], stack + [segs[0]], false);
      }
    }
  }

  /** In particular on every absolute path whose first two passes leave no two
      adjacent ".." segments, sanitising is running the stack. */
  lemma SanitisedIsStack(path: string)
    requires path != "" && path[0] == '/'
    requires NoAdjacentDots(Split(Behind(Pass2(Pass1(path)))))
    ensures Sanitised(path) == Join(StackRun(Split(Behind(Pass2(Pass1(path)))), []))
  {
    var t := Pass2(Pass1(path));
    Pass1Clean(path);
    Pass2Clean(Pass1(path));
    NoAdjacentIsEnough(Split(t[1..]), [], true);
    PointerPassIsStackExactly(t);
  }

  /** Two adjacent ".." below two segments remove only one of them. */
  lemma AdjacentDotsCounterexample()
    ensures Pass3("/a/b/../../c", "", 0) == "/a/c"
    ensures Join(StackRun(["a", "b", "..", "..", "c"], [])) == "/c"
  {
    var segs := ["a", "b", "..", "..", "c"];
    assert Join(segs) == "/a/b/../../c" by {
      assert segs[1..] == ["b", "..", "..", "c"] && segs[1..][1..] == ["..", "..", "c"];
      assert segs[2..] == ["..", "..", "c"] && segs[3..] == ["..", "c"] && segs[4..] == ["c"];
      JoinAppend([], "c");
      assert Join(["c"]) == "/c";
      assert Join(["..", "c"]) == "/../c" by { assert ["..", "c"][1..] == ["c"]; }
      assert Join(["..", "..", "c"]) == "/../../c" by { assert ["..", "..", "c"][1..] == ["..", "c"]; }
      assert Join(["b", "..", "..", "c"]) == "/b/../../c" by {
        assert ["b", "..", "..", "c"][1..] == ["..", "..", "c"];
      }
    }
    PointerPass(segs, [], true);
    RunSteps();
    assert Join(["a", "c"]) == "/a/c" by { assert ["a", "c"][1..] == ["c"] && ["c"][1..] == []; }
    assert Join(["c"]) == "/c" by { assert ["c"][1..] == []; }
  }

  lemma RunSteps()
    ensures PointerRun(["a", "b", "..", "..", "c"], [], true) == ["a", "c"]
    ensures StackRun(["a", "b", "..", "..", "c"], []) == ["c"]
  {
    var s0 := ["a", "b", "..", "..", "c"];
    var s1, s2, s3, s4 := ["b", "..", "..", "c"], ["..", "..", "c"], ["..", "c"], ["c"];
    assert s0[1..] == s1 && s1[1..] == s2 && s2[1..] == s3 && s3[1..] == s4 && s4[1..] == [];
    assert [] + ["a"] == ["a"] && ["a"] + ["b"] == ["a", "b"] && ["a", "b"][..1] == ["a"] && ["a"][..0] == [];
    assert ["a"] + ["c"] == ["a", "c"] && [] + ["c"] == ["c"];
    assert PointerRun(s4, ["a"], true) == PointerRun([], ["a", "c"], false);
    assert PointerRun(s2, ["a", "b"], false) == PointerRun(s3, ["a"], true) == PointerRun(s4, ["a"], true);
    assert PointerRun(s0, [], true) == PointerRun(s1, ["a"], false) == PointerRun(s2, ["a", "b"], false);
    assert StackRun(s4, []) == StackRun([], ["c"]);
    assert StackRun(s2, ["a", "b"]) == StackRun(s3, ["a"]) == StackRun(s4, []);
    assert StackRun(s0, []) == StackRun(s1, ["a"]) == StackRun(s2, ["a", "b"]);
  }
}
