// The path normaliser of web/sqflite_sw.js (`A.q7`, `A.qb`): a segment stack that must compute
// what section 5.2.4 of RFC 3986 defines by rewriting strings.

/** Splitting a string at '/' and joining it back, as the JavaScript built-ins do. */
module Segments {
  import opened Basics

  function Split(s: string): (r: seq<string>)
    ensures |r| > 0
  {
    if s == "" then [""]
    else
      var r := Split(s[1..]);
      if s[0] == '/' then [""] + r else [[s[0]] + r[0]] + r[1..]
  }

  function Join(ss: seq<string>): string {
    if |ss| == 0 then ""
    else if |ss| == 1 then ss[0]
    else ss[0] + "/" + Join(ss[1..])
  }

  predicate NoSlash(s: string) {
    forall i :: 0 <= i < |s| ==> s[i] != '/'
  }

  predicate AllNoSlash(ss: seq<string>) {
    forall i :: 0 <= i < |ss| ==> NoSlash(ss[i])
  }

  lemma {:induction false} SplitThenJoin(s: string)
    ensures Join(Split(s)) == s
    ensures AllNoSlash(Split(s))
  {
    if s != "" {
      SplitThenJoin(s[1..]);
      var r := Split(s[1..]);
      assert s == [s[0]] + s[1..];
      if s[0] == '/' {
        JoinEmpty(r);
      } else {
        JoinLonger(s[0], r);
      }
    }
  }

  lemma JoinOne(x: string)
    ensures Join([x]) == x && Join([""]) == ""
  {
  }

  lemma JoinMore(x: string, rest: seq<string>)
    requires |rest| > 0
    ensures Join([x] + rest) == x + "/" + Join(rest)
  {
    assert ([x] + rest)[1..] == rest;
  }

  lemma JoinEmpty(r: seq<string>)
    requires |r| > 0
    ensures Join([""] + r) == "/" + Join(r)
  {
    hide Join;
    JoinMore("", r);
    assert "" + "/" == "/";
  }

  lemma JoinLonger(c: char, r: seq<string>)
    requires |r| > 0
    ensures Join([[c] + r[0]] + r[1..]) == [c] + Join(r)
  {
    hide Join;
    var x, rest := r[0], r[1..];
    assert r == [x] + rest;
    if rest == [] {
      assert [[c] + x] + rest == [[c] + x] && [x] + rest == [x];
      JoinOne([c] + x);
      JoinOne(x);
    } else {
      JoinMore([c] + x, rest);
      JoinMore(x, rest);
      Reassociate([c], x, "/");
      Reassociate([c], x + "/", Join(rest));
    }
  }

  lemma {:induction false} SplitPrefix(a: string, t: string)
    requires NoSlash(a)
    ensures Split(a + "/" + t) == [a] + Split(t)
    ensures Split(a) == [a]
  {
    if a == "" {
      assert a + "/" + t == ['/'] + t;
    } else {
      SplitPrefix(a[1..], t);
      assert (a + "/" + t)[1..] == a[1..] + "/" + t;
      assert [a[0]] + a[1..] == a;
      assert [[a[0]] + a[1..]] + [] == [a];
      assert ([a[1..]] + Split(t))[1..] == Split(t);
    }
  }

  lemma {:induction false} JoinThenSplit(ss: seq<string>)
    requires |ss| > 0 && AllNoSlash(ss)
    ensures Split(Join(ss)) == ss
  {
    if |ss| == 1 {
      SplitPrefix(ss[0], "");
      assert ss == [ss[0]];
    } else {
      JoinThenSplit(ss[1..]);
      SplitPrefix(ss[0], Join(ss[1..]));
      assert ss == [ss[0]] + ss[1..];
    }
  }

  lemma {:induction false} JoinSnoc(ss: seq<string>, x: string)
    requires |ss| > 0
    ensures Join(ss + [x]) == Join(ss) + "/" + x
  {
    if |ss| == 1 {
      assert (ss + [x])[1..] == [x];
    } else {
      JoinSnoc(ss[1..], x);
      assert (ss + [x])[1..] == ss[1..] + [x];
      var t := Join(ss[1..]);
      assert ss[0] + "/" + (t + "/" + x) == ss[0] + "/" + t + "/" + x;
    }
  }
}

/** remove_dot_segments as RFC 3986 writes it: an input buffer rewritten step by step. */
module Rfc3986 {

  datatype Buffers = Buffers(input: string, output: string)

  predicate Begins(s: string, c0: char, c1: char) {
    |s| >= 2 && s[0] == c0 && s[1] == c1
  }

  predicate Begins3(s: string, c0: char, c1: char, c2: char) {
    |s| >= 3 && s[0] == c0 && s[1] == c1 && s[2] == c2
  }

  predicate Begins4(s: string, c0: char, c1: char, c2: char, c3: char) {
    |s| >= 4 && s[0] == c0 && s[1] == c1 && s[2] == c2 && s[3] == c3
  }

  /** Number of characters of the first path segment, with its initial '/' when there is one. */
  function FirstSegment(s: string): (k: nat)
    requires s != ""
    ensures 0 < k <= |s|
  {
    1 + UpToSlash(s[1..])
  }

  function UpToSlash(s: string): (k: nat)
    ensures k <= |s|
  {
    if s == "" || s[0] == '/' then 0 else 1 + UpToSlash(s[1..])
  }

  /** The output buffer without its last segment and the '/' before it, if any. */
  function WithoutLastSegment(out: string): string {
    if out == "" then ""
    else if out[|out| - 1] == '/' then out[..|out| - 1]
    else WithoutLastSegment(out[..|out| - 1])
  }

  /** One of the steps 2A to 2E of section 5.2.4. */
  function Step(b: Buffers): (r: Buffers)
    requires b.input != ""
    ensures |r.input| < |b.input|
  {
    var Buffers(input, output) := b;
    if Begins3(input, '.', '.', '/') then Buffers(input[3..], output)                              // 2A
    else if Begins(input, '.', '/') then Buffers(input[2..], output)                               // 2A
    else if Begins3(input, '/', '.', '/') then Buffers("/" + input[3..], output)                   // 2B
    else if |input| == 2 && Begins(input, '/', '.') then Buffers("/", output)                      // 2B
    else if Begins4(input, '/', '.', '.', '/') then
      Buffers("/" + input[4..], WithoutLastSegment(output))                                        // 2C
    else if |input| == 3 && Begins3(input, '/', '.', '.') then
      Buffers("/", WithoutLastSegment(output))                                                     // 2C
    else if |input| == 1 && input[0] == '.' then Buffers("", output)                               // 2D
    else if |input| == 2 && Begins(input, '.', '.') then Buffers("", output)                       // 2D
    else var k := FirstSegment(input); Buffers(input[k..], output + input[..k])                    // 2E
  }

  /** Step 2 repeated until the input buffer is empty; the result is the output buffer. */
  function Run(b: Buffers): string
    decreases |b.input|
  {
    if b.input == "" then b.output else Run(Step(b))
  }

  function RemoveDotSegments(path: string): string {
    Run(Buffers(path, ""))
  }

  lemma {:induction false} UpTo(s: string, rest: string)
    requires (forall i :: 0 <= i < |s| ==> s[i] != '/') && (rest == "" || rest[0] == '/')
    ensures UpToSlash(s + rest) == |s|
  {
    if s == "" {
      assert s + rest == rest;
    } else {
      UpTo(s[1..], rest);
      assert (s + rest)[1..] == s[1..] + rest;
    }
  }

  /** Step 2E on a segment of one letter. */
  lemma LetterMoves(c: char, rest: string, output: string)
    requires c != '/' && c != '.' && (rest == "" || rest[0] == '/')
    ensures Run(Buffers(['/', c] + rest, output)) == Run(Buffers(rest, output + ['/', c]))
  {
    var input := ['/', c] + rest;
    UpTo([c], rest);
    assert input[1..] == [c] + rest && input[2..] == rest && input[..2] == ['/', c];
  }

  /** Step 2B. */
  lemma DotGoes(rest: string, output: string)
    requires rest != "" && rest[0] == '/'
    ensures Run(Buffers("/." + rest, output)) == Run(Buffers(rest, output))
  {
    var input := "/." + rest;
    assert input[2] == '/' && "/" + input[3..] == rest;
  }

  /** Step 2C. */
  lemma DotDotTakes(rest: string, output: string, c: char)
    requires rest != "" && rest[0] == '/' && c != '/'
    ensures Run(Buffers("/.." + rest, output + ['/', c])) == Run(Buffers(rest, output))
  {
    var input, out := "/.." + rest, output + ['/', c];
    assert input[3] == '/' && "/" + input[4..] == rest;
    assert out[..|out| - 1] == output + ['/'] && (output + ['/'])[..|output|] == output;
    assert WithoutLastSegment(output + ['/']) == output;
  }

  /** The first example of section 5.2.4: "/a/b/c/./../../g" becomes "/a/g". */
  lemma FirstExample()
    ensures RemoveDotSegments("/a/b/c/./../../g") == "/a/g"
  {
    hide Run, Step;
    var g, two, three, four := "/g", "/.." + "/g", "/.." + ("/.." + "/g"), "/." + ("/.." + ("/.." + "/g"));
    assert "/a/b/c/./../../g" == ['/', 'a'] + (['/', 'b'] + (['/', 'c'] + four));
    LetterMoves('a', ['/', 'b'] + (['/', 'c'] + four), "");
    LetterMoves('b', ['/', 'c'] + four, "" + ['/', 'a']);
    LetterMoves('c', four, "" + ['/', 'a'] + ['/', 'b']);
    DotGoes(three, "" + ['/', 'a'] + ['/', 'b'] + ['/', 'c']);
    DotDotTakes(two, "" + ['/', 'a'] + ['/', 'b'], 'c');
    DotDotTakes(g, "" + ['/', 'a'], 'b');
    LetterMoves('g', "", "" + ['/', 'a']);
    assert g == ['/', 'g'] + "" && "" + ['/', 'a'] + ['/', 'g'] == "/a/g";
    AllMoved("" + ['/', 'a'] + ['/', 'g']);
  }

  lemma AllMoved(output: string)
    ensures Run(Buffers("", output)) == output
  {
  }
}

module DotSegments {
  import opened Basics
  import opened Segments
  import Rfc3986

  predicate StartsWithDot(s: string) {
    s != "" && s[0] == '.'
  }

  /** `A.q7`: could the path hold a dot segment at all? */
  predicate MayHaveDotSegments(a: string) {
    StartsWithDot(a) || exists i :: 0 <= i < |a| - 1 && a[i] == '/' && a[i + 1] == '.'
  }

  predicate IsDot(segment: string) {
    segment == "." || segment == ".."
  }

  predicate DotFree(ss: seq<string>) {
    forall i :: 0 <= i < |ss| ==> !IsDot(ss[i])
  }

  /** The stack after one segment. */
  function Push(stack: seq<string>, segment: string): seq<string> {
    if segment == ".." then
      if |stack| == 0 then [] else if |stack| == 1 then [""] else stack[..|stack| - 1]
    else if segment == "." then stack
    else stack + [segment]
  }

  /** The '/' the standard still sees in front of the next segment. */
  function Lead(stack: seq<string>): string {
    if stack == [] then "" else "/"
  }

  /** What the standard's input buffer holds while `rest` is still to be processed. */
  function Unread(stack: seq<string>, rest: seq<string>, appendSlash: bool): string {
    if |rest| == 0 then (if appendSlash then Lead(stack) else "") else Lead(stack) + Join(rest)
  }

  /** The standard's two buffers at that moment: the stack is the output, joined. */
  function Buffers(stack: seq<string>, rest: seq<string>, appendSlash: bool): Rfc3986.Buffers {
    Rfc3986.Buffers(Unread(stack, rest, appendSlash), Join(stack))
  }

  lemma {:induction false} LastSegment(prefix: string, x: string)
    requires NoSlash(x)
    ensures Rfc3986.WithoutLastSegment(prefix + "/" + x) == prefix
    ensures Rfc3986.WithoutLastSegment(x) == ""
  {
    if x == "" {
      assert prefix + "/" + x == prefix + "/";
    } else {
      var y := x[..|x| - 1];
      LastSegment(prefix, y);
      assert (prefix + "/" + x)[..|prefix + "/" + x| - 1] == prefix + "/" + y;
    }
  }

  lemma {:induction false} UpToSlashOf(x: string, tail: string)
    requires NoSlash(x)
    requires tail == "" || tail[0] == '/'
    ensures Rfc3986.UpToSlash(x + tail) == |x|
  {
    if x == "" {
      assert x + tail == tail;
    } else {
      UpToSlashOf(x[1..], tail);
      assert (x + tail)[1..] == x[1..] + tail;
    }
  }

  lemma LastHasNoSlash(ss: seq<string>)
    requires |ss| > 0 && AllNoSlash(ss)
    ensures NoSlash(ss[|ss| - 1])
  {
  }

  /** Popping the stack is step 2C's removal of the last output segment. */
  lemma PopIsRemoval(stack: seq<string>)
    requires |stack| > 0 && AllNoSlash(stack)
    ensures Join(Push(stack, "..")) == Rfc3986.WithoutLastSegment(Join(stack))
  {
    hide Rfc3986.WithoutLastSegment, Join, AllNoSlash;
    var n := |stack| - 1;
    LastHasNoSlash(stack);
    if n == 0 {
      JoinOne(stack[0]);
      assert stack == [stack[0]];
      LastSegment("", stack[0]);
    } else {
      assert stack == stack[..n] + [stack[n]];
      JoinSnoc(stack[..n], stack[n]);
      LastSegment(Join(stack[..n]), stack[n]);
    }
  }

  /** Tail of the input buffer behind the segment being processed. */
  function Behind(rest: seq<string>): string
    requires |rest| > 0
  {
    if |rest| == 1 then "" else "/" + Join(rest[1..])
  }

  lemma HeadOf(rest: seq<string>)
    requires |rest| > 0
    ensures Join(rest) == rest[0] + Behind(rest)
  {
    if |rest| > 1 {
      Reassociate(rest[0], "/", Join(rest[1..]));
    }
  }

  lemma SingleSlash(output: string)
    ensures Rfc3986.Run(Rfc3986.Buffers("/", output)) == output + "/"
  {
    assert Rfc3986.Step(Rfc3986.Buffers("/", output)) == Rfc3986.Buffers("", output + "/");
  }

  lemma LeadingDotStep(x: string, tail: string, output: string)
    requires IsDot(x)
    requires tail == "" || tail[0] == '/'
    ensures Rfc3986.Step(Rfc3986.Buffers(x + tail, output))
         == Rfc3986.Buffers(if tail == "" then "" else tail[1..], output)
  {
    var input := x + tail;
    assert input[0] == '.';
    assert x == ".." ==> input[1] == '.';
    if tail != "" {
      assert input[|x|] == '/';
      assert input[|x| + 1..] == tail[1..];
    }
  }

  lemma SlashDotStep(x: string, tail: string, output: string)
    requires IsDot(x)
    requires tail == "" || tail[0] == '/'
    ensures Rfc3986.Step(Rfc3986.Buffers("/" + x + tail, output))
         == Rfc3986.Buffers(if tail == "" then "/" else tail,
                            if x == ".." then Rfc3986.WithoutLastSegment(output) else output)
  {
    var input := "/" + x + tail;
    assert input[0] == '/' && input[1] == '.';
    assert x == ".." ==> input[2] == '.';
    if tail != "" {
      assert input[|x| + 1] == '/';
      assert "/" + input[|x| + 2..] == tail;
    }
  }

  /** A dot segment: what is left of the input buffer once the standard has dealt with it. */
  lemma DotStep(stack: seq<string>, rest: seq<string>)
    requires |rest| > 0 && IsDot(rest[0])
    ensures Unread(stack, rest, false) != ""
    ensures Rfc3986.Step(Buffers(stack, rest, false)) == Rfc3986.Buffers(Unread(stack, rest[1..], true),
              if rest[0] == ".." && stack != [] then Rfc3986.WithoutLastSegment(Join(stack)) else Join(stack))
  {
    hide Rfc3986.Step;
    HeadOf(rest);
    var x, tail := rest[0], Behind(rest);
    Reassociate(Lead(stack), x, tail);
    if stack == [] {
      assert "" + x == x;
      LeadingDotStep(x, tail, Join(stack));
      if |rest| > 1 {
        assert tail[1..] == Join(rest[1..]);
        assert "" + Join(rest[1..]) == Join(rest[1..]);
      }
    } else {
      SlashDotStep(x, tail, Join(stack));
    }
  }

  lemma PlainSegmentStep(lead: string, x: string, tail: string, output: string)
    requires !IsDot(x) && NoSlash(x)
    requires tail == "" || tail[0] == '/'
    requires (lead == "" && x != "") || lead == "/"
    ensures Rfc3986.Step(Rfc3986.Buffers(lead + x + tail, output)) == Rfc3986.Buffers(tail, output + (lead + x))
  {
    NotADot(lead, x, tail);
    var input := lead + x + tail;
    if lead == "" {
      UpToSlashOf(x[1..], tail);
      assert input[1..] == x[1..] + tail;
    } else {
      UpToSlashOf(x, tail);
      assert input[1..] == x + tail;
    }
    var k := |lead + x|;
    assert Rfc3986.FirstSegment(input) == k;
    assert input[k..] == tail && input[..k] == lead + x;
  }

  lemma JoinPush(stack: seq<string>, x: string)
    ensures Join(stack + [x]) == Join(stack) + (Lead(stack) + x)
  {
    if stack == [] {
      assert stack + [x] == [x];
      assert "" + ("" + x) == x;
    } else {
      JoinSnoc(stack, x);
      Reassociate(Join(stack), "/", x);
    }
  }

  /** Any other segment moves to the output buffer as a whole. */
  lemma PlainStep(stack: seq<string>, rest: seq<string>)
    requires |rest| > 0 && !IsDot(rest[0]) && NoSlash(rest[0])
    requires stack != [] || rest[0] != ""
    ensures Unread(stack, rest, false) != ""
    ensures Rfc3986.Step(Buffers(stack, rest, false)) == Buffers(stack + [rest[0]], rest[1..], false)
  {
    hide Rfc3986.Step;
    HeadOf(rest);
    var x, tail := rest[0], Behind(rest);
    Reassociate(Lead(stack), x, tail);
    PlainSegmentStep(Lead(stack), x, tail, Join(stack));
    JoinPush(stack, x);
    assert Unread(stack + [x], rest[1..], false) == tail;
  }

  lemma NotADot(lead: string, x: string, tail: string)
    requires !IsDot(x) && NoSlash(x)
    requires tail == "" || tail[0] == '/'
    requires (lead == "" && x != "") || lead == "/"
    ensures var input := lead + x + tail;
      && !Rfc3986.Begins3(input, '.', '.', '/') && !Rfc3986.Begins(input, '.', '/')
      && !Rfc3986.Begins3(input, '/', '.', '/') && !Rfc3986.Begins4(input, '/', '.', '.', '/')
      && !(|input| == 2 && Rfc3986.Begins(input, '/', '.'))
      && !(|input| == 3 && Rfc3986.Begins3(input, '/', '.', '.'))
      && !(|input| == 1 && input[0] == '.') && !(|input| == 2 && Rfc3986.Begins(input, '.', '.'))
  {
    var input := lead + x + tail;
    assert |x| == 1 ==> x == [x[0]];
    assert |x| == 2 ==> x == [x[0], x[1]];
    assert |x| >= 1 ==> input[|lead|] == x[0];
    assert |x| >= 2 ==> input[|lead| + 1] == x[1];
    assert |x| >= 3 ==> input[|lead| + 2] == x[2];
    assert |tail| > 0 ==> input[|lead| + |x|] == '/';
  }

  lemma RunStep(b: Rfc3986.Buffers)
    requires b.input != ""
    ensures Rfc3986.Run(b) == Rfc3986.Run(Rfc3986.Step(b))
  {
    hide Rfc3986.Step;
  }

  lemma PushKeeps(stack: seq<string>, x: string)
    requires AllNoSlash(stack) && NoSlash(x)
    ensures AllNoSlash(Push(stack, x)) && (IsDot(x) ==> Lead(Push(stack, x)) == Lead(stack))
  {
    hide NoSlash;
    assert NoSlash("") by { EmptyNoSlash(); }
  }

  lemma EmptyNoSlash()
    ensures NoSlash("")
  {
  }

  /** An empty first segment is the '/' in front of the second one. */
  lemma FirstEmpty(rest: seq<string>)
    requires |rest| > 0 && rest[0] == ""
    ensures Buffers([], rest, false) == Buffers([""], rest[1..], false)
  {
    HeadOf(rest);
  }

  /** One turn of the segment loop keeps the standard's final answer. */
  lemma StepKeepsAnswer(stack: seq<string>, rest: seq<string>)
    requires |rest| > 0 && AllNoSlash(rest) && AllNoSlash(stack)
    ensures AllNoSlash(Push(stack, rest[0]))
    ensures Rfc3986.Run(Buffers(stack, rest, false))
         == Rfc3986.Run(Buffers(Push(stack, rest[0]), rest[1..], IsDot(rest[0])))
  {
    hide Rfc3986.Run, Rfc3986.Step, Rfc3986.WithoutLastSegment, Join, NoSlash;
    PushKeeps(stack, rest[0]);
    if IsDot(rest[0]) {
      DotStep(stack, rest);
      RunStep(Buffers(stack, rest, false));
      if rest[0] == ".." && stack != [] {
        PopIsRemoval(stack);
      }
    } else if stack == [] && rest[0] == "" {
      FirstEmpty(rest);
      assert Push(stack, rest[0]) == [""];
    } else {
      PlainStep(stack, rest);
      RunStep(Buffers(stack, rest, false));
    }
  }

  /** A path the shortcut lets through has no dot segment. */
  lemma ShortcutIsSafe(a: string)
    requires !MayHaveDotSegments(a)
    ensures DotFree(Split(a))
  {
    DotAfterSlash(a);
  }

  /** Every segment but the first follows a '/', so it cannot begin with a dot. */
  lemma {:induction false} DotAfterSlash(a: string)
    requires forall i :: 0 <= i < |a| - 1 && a[i] == '/' ==> a[i + 1] != '.'
    ensures forall k :: 1 <= k < |Split(a)| ==> !StartsWithDot(Split(a)[k])
    ensures StartsWithDot(Split(a)[0]) ==> StartsWithDot(a)
  {
    if a != "" {
      forall i | 0 <= i < |a[1..]| - 1 && a[1..][i] == '/'
        ensures a[1..][i + 1] != '.'
      {
        assert a[i + 1] == '/' && a[i + 1 + 1] == a[1..][i + 1];
      }
      DotAfterSlash(a[1..]);
      var r := Split(a[1..]);
      if a[0] == '/' {
        assert a[1..] != "" ==> a[0 + 1] == a[1..][0];
      } else {
        assert Split(a)[0] == [a[0]] + r[0];
      }
      forall k | 1 <= k < |Split(a)|
        ensures !StartsWithDot(Split(a)[k])
      {
        assert Split(a)[k] == if a[0] == '/' then r[k - 1] else r[k];
      }
    }
  }

  lemma NothingUnread(stack: seq<string>)
    ensures Rfc3986.Run(Buffers(stack, [], false)) == Join(stack)
    ensures Rfc3986.Run(Buffers(stack, [], true)) == Join(stack + [""])
  {
    if stack != [] {
      SingleSlash(Join(stack));
      JoinSnoc(stack, "");
    }
  }

  /** A dot-free path is its own normal form. */
  lemma {:induction false} DotFreeUnchanged(stack: seq<string>, rest: seq<string>)
    requires AllNoSlash(stack) && AllNoSlash(rest) && DotFree(rest)
    ensures Rfc3986.Run(Buffers(stack, rest, false)) == Join(stack + rest)
    decreases |rest|
  {
    hide Rfc3986.Step, Rfc3986.Run, Join, Unread, Rfc3986.WithoutLastSegment;
    if |rest| == 0 {
      NothingUnread(stack);
      assert stack + rest == stack;
    } else {
      var pushed := stack + [rest[0]];
      StepKeepsAnswer(stack, rest);
      assert Push(stack, rest[0]) == pushed;
      DotFreeUnchanged(pushed, rest[1..]);
      assert pushed + rest[1..] == stack + rest;
    }
  }

  /** Before the loop the input buffer holds the whole path and the output buffer nothing. */
  lemma Initially(a: string)
    ensures Buffers([], Split(a), false) == Rfc3986.Buffers(a, "")
    ensures AllNoSlash(Split(a))
    ensures Join([] + Split(a)) == a
  {
    SplitThenJoin(a);
    assert "" + a == a;
    assert [] + Split(a) == Split(a);
  }

  /** `A.qb`. */
  method Normalize(a: string) returns (r: string)
    ensures r == Rfc3986.RemoveDotSegments(a)
    ensures DotFree(Split(r))
  {
    hide Rfc3986.Run, Rfc3986.Step, Join, Rfc3986.WithoutLastSegment;
    Initially(a);
    var segments := Split(a);
    if !MayHaveDotSegments(a) {
      ShortcutIsSafe(a);
      DotFreeUnchanged([], segments);
      return a;
    }
    assert segments[0..] == segments;
    var stack: seq<string> := [];
    var appendSlash := false;
    for o := 0 to |segments|
      invariant AllNoSlash(stack) && DotFree(stack)
      invariant o == |segments| && !appendSlash ==> stack != []
      invariant Rfc3986.Run(Buffers(stack, segments[o..], appendSlash)) == Rfc3986.RemoveDotSegments(a)
    {
      var n := segments[o];
      assert segments[o..][1..] == segments[o + 1..];
      StepKeepsAnswer(stack, segments[o..]);
      ghost var before := stack;
      if n == ".." {
        if |stack| != 0 {
          stack := stack[..|stack| - 1];
          if |stack| == 0 {
            stack := stack + [""];
          }
        }
        appendSlash := true;
      } else if n == "." {
        appendSlash := true;
      } else {
        stack := stack + [n];
        appendSlash := false;
      }
      assert stack == Push(before, n);
    }
    NothingUnread(stack);
    if appendSlash {
      stack := stack + [""];
    }
    r := Join(stack);
    JoinThenSplit(stack);
  }

  /** Whatever has been read and whatever is still to come, no dot segment survives. */
  lemma {:induction false} AnswerIsDotFree(stack: seq<string>, rest: seq<string>, appendSlash: bool)
    requires AllNoSlash(stack) && DotFree(stack) && AllNoSlash(rest)
    ensures DotFree(Split(Rfc3986.Run(Buffers(stack, rest, appendSlash))))
    decreases |rest|
  {
    hide Rfc3986.Step, Rfc3986.Run, Join, Rfc3986.WithoutLastSegment;
    if rest == [] {
      NothingUnread(stack);
      var all := if appendSlash then stack + [""] else stack;
      if all == [] { NothingJoined(); } else { JoinThenSplit(all); }
    } else {
      StepKeepsAnswer(stack, rest);
      AnswerIsDotFree(Push(stack, rest[0]), rest[1..], IsDot(rest[0]));
    }
  }

  lemma NothingJoined()
    ensures DotFree(Split(Join([])))
  {
  }

  /** Normalising twice is normalising once. */
  lemma Idempotent(a: string)
    ensures DotFree(Split(Rfc3986.RemoveDotSegments(a)))
    ensures Rfc3986.RemoveDotSegments(Rfc3986.RemoveDotSegments(a)) == Rfc3986.RemoveDotSegments(a)
  {
    hide Rfc3986.Step, Rfc3986.Run, Join;
    Initially(a);
    AnswerIsDotFree([], Split(a), false);
    var r := Rfc3986.RemoveDotSegments(a);
    Initially(r);
    DotFreeUnchanged([], Split(r));
  }
}
