/**
  Slash-separated paths as Go's `path` and `io/fs` packages treat them, and the
  resolution that pkg/gcs/fs/gcsfs.go builds on them: `validPath`, `Open`, `Sub`
  and the object key of a name.
 */
module Paths {

  // ------------------------------------------------------ segments of a path

  predicate NoSlash(s: string) {
    '/' !in s
  }

  /** The parts between slashes; a path always has at least one. */
  function Split(s: string): (segs: seq<string>)
    ensures |segs| >= 1
    ensures forall i :: 0 <= i < |segs| ==> NoSlash(segs[i])
  {
    if s == "" then [""]
    else
      var rest := Split(s[1..]);
      Cons(s[0], rest)
  }

  function Unsplit(segs: seq<string>): string {
    if |segs| == 0 then ""
    else if |segs| == 1 then segs[0]
    else segs[0] + "/" + Unsplit(segs[1..])
  }

  lemma {:induction false} UnsplitSplit(s: string)
    ensures Unsplit(Split(s)) == s
  {
    if s != "" {
      UnsplitSplit(s[1..]);
      var rest := Split(s[1..]);
      if s[0] == '/' {
        assert ([""] + rest)[1..] == rest;
      } else {
        assert Split(s)[1..] == rest[1..];
      }
      assert s == [s[0]] + s[1..];
    }
  }

  lemma {:induction false} SplitNoSlash(s: string)
    requires NoSlash(s)
    ensures Split(s) == [s]
  {
    if s != "" {
      SplitNoSlash(s[1..]);
      assert s == [s[0]] + s[1..];
    }
  }

  lemma {:induction false} SplitJoin(a: string, b: string)
    ensures Split(a + "/" + b) == Split(a) + Split(b)
  {
    var whole := a + "/" + b;
    if a == "" {
      assert whole[1..] == b;
    } else {
      SplitJoin(a[1..], b);
      assert whole[0] == a[0] && whole[1..] == a[1..] + "/" + b;
      ConsFirst(a[0], Split(a[1..]), Split(b));
    }
  }

  /** Putting a character in front of a split text, as `Split` does. */
  function Cons(c: char, segs: seq<string>): seq<string>
    requires |segs| >= 1
  {
    if c == '/' then [""] + segs else [[c] + segs[0]] + segs[1..]
  }

  lemma ConsFirst(c: char, x: seq<string>, y: seq<string>)
    requires |x| >= 1
    ensures Cons(c, x + y) == Cons(c, x) + y
  {
    assert (x + y)[1..] == x[1..] + y;
  }

  /** An empty first or last segment shows as a slash at that end. */
  lemma EdgeSegs(s: string)
    ensures Split("") == [""]
    ensures Rooted(s) ==> Split(s)[0] == ""
    ensures s != "" && s[|s| - 1] == '/' ==> Split(s)[|Split(s)| - 1] == ""
  {
    if s != "" && s[|s| - 1] == '/' {
      assert s == s[..|s| - 1] + "/" + "";
      SplitJoin(s[..|s| - 1], "");
    }
  }

  lemma {:induction false} SplitUnsplit(segs: seq<string>)
    requires |segs| >= 1 && forall i :: 0 <= i < |segs| ==> NoSlash(segs[i])
    ensures Split(Unsplit(segs)) == segs
  {
    SplitNoSlash(segs[0]);
    if |segs| > 1 {
      SplitUnsplit(segs[1..]);
      SplitJoin(segs[0], Unsplit(segs[1..]));
      assert segs == [segs[0]] + segs[1..];
    } else {
      assert segs == [segs[0]];
    }
  }

  // -------------------------------------------------------------- path.Clean

  /** One segment of the cleaning: `.` and empty segments vanish, `..` takes back one segment. */
  function Push(rooted: bool, out: seq<string>, seg: string): seq<string> {
    if seg == "" || seg == "." then out
    else if seg == ".." then
      if out != [] && out[|out| - 1] != ".." then out[..|out| - 1]
      else if rooted then out
      else out + [".."]
    else out + [seg]
  }

  function PushAll(rooted: bool, out: seq<string>, segs: seq<string>): seq<string>
    decreases |segs|
  {
    if segs == [] then out else PushAll(rooted, Push(rooted, out, segs[0]), segs[1..])
  }

  predicate Rooted(s: string) {
    s != "" && s[0] == '/'
  }

  function Render(rooted: bool, segs: seq<string>): string {
    if rooted then "/" + Unsplit(segs) else if segs == [] then "." else Unsplit(segs)
  }

  function CleanSegs(s: string): seq<string> {
    PushAll(Rooted(s), [], Split(s))
  }

  /** `path.Clean`. */
  function Clean(s: string): string {
    Render(Rooted(s), CleanSegs(s))
  }

  /** `path.Join` of two elements. */
  function Join(a: string, b: string): string {
    if a == "" && b == "" then "" else Clean(if a == "" then b else a + "/" + b)
  }

  // ---------------------------------------------------- algebra of cleaning

  predicate Plain(seg: string) {
    seg != "" && seg != "." && seg != ".." && NoSlash(seg)
  }

  /** Some `..` (none when rooted), then plain segments. */
  predicate IsClean(rooted: bool, segs: seq<string>) {
    if segs == [] then true
    else if !rooted && segs[0] == ".." then IsClean(rooted, segs[1..])
    else forall i :: 0 <= i < |segs| ==> Plain(segs[i])
  }

  lemma {:induction false} CleanAppend(rooted: bool, segs: seq<string>, seg: string)
    requires IsClean(rooted, segs) && Plain(seg)
    ensures IsClean(rooted, segs + [seg])
  {
    if segs != [] && !rooted && segs[0] == ".." {
      assert (segs + [seg])[1..] == segs[1..] + [seg];
      CleanAppend(rooted, segs[1..], seg);
    }
  }

  lemma {:induction false} CleanDrop(rooted: bool, segs: seq<string>)
    requires IsClean(rooted, segs) && segs != []
    ensures IsClean(rooted, segs[..|segs| - 1])
  {
    if |segs| > 1 && !rooted && segs[0] == ".." {
      assert segs[..|segs| - 1][1..] == segs[1..][..|segs[1..]| - 1];
      CleanDrop(rooted, segs[1..]);
    }
  }

  lemma {:induction false} CleanUp(segs: seq<string>)
    requires IsClean(false, segs) && (segs == [] || segs[|segs| - 1] == "..")
    ensures IsClean(false, segs + [".."])
  {
    if segs == [] {
      assert IsClean(false, [".."][1..]);
    } else {
      assert segs[0] == "..";
      assert (segs + [".."])[1..] == segs[1..] + [".."];
      CleanUp(segs[1..]);
    }
  }

  lemma PushClean(rooted: bool, out: seq<string>, seg: string)
    requires IsClean(rooted, out) && NoSlash(seg)
    ensures IsClean(rooted, Push(rooted, out, seg))
  {
    if seg == "" || seg == "." {
    } else if seg == ".." {
      if out != [] && out[|out| - 1] != ".." {
        CleanDrop(rooted, out);
      } else if !rooted {
        CleanUp(out);
      }
    } else {
      CleanAppend(rooted, out, seg);
    }
  }

  lemma {:induction false} PushAllClean(rooted: bool, out: seq<string>, segs: seq<string>)
    requires IsClean(rooted, out) && forall i :: 0 <= i < |segs| ==> NoSlash(segs[i])
    ensures IsClean(rooted, PushAll(rooted, out, segs))
    decreases |segs|
  {
    if segs != [] {
      PushClean(rooted, out, segs[0]);
      PushAllClean(rooted, Push(rooted, out, segs[0]), segs[1..]);
    }
  }

  lemma {:induction false} PushAllConcat(rooted: bool, out: seq<string>, a: seq<string>, b: seq<string>)
    ensures PushAll(rooted, out, a + b) == PushAll(rooted, PushAll(rooted, out, a), b)
    decreases |a|
  {
    if a == [] {
      assert a + b == b;
    } else {
      assert (a + b)[1..] == a[1..] + b;
      PushAllConcat(rooted, Push(rooted, out, a[0]), a[1..], b);
    }
  }

  /** Plain segments are simply appended. */
  lemma {:induction false} PushAllPlain(rooted: bool, out: seq<string>, segs: seq<string>)
    requires forall i :: 0 <= i < |segs| ==> Plain(segs[i])
    ensures PushAll(rooted, out, segs) == out + segs
    decreases |segs|
  {
    if segs == [] {
      assert out + segs == out;
    } else {
      PushAllPlain(rooted, out + [segs[0]], segs[1..]);
      assert out + [segs[0]] + segs[1..] == out + segs;
    }
  }

  /** Cleaning keeps a clean list as it is. */
  lemma {:induction false} PushAllFixed(rooted: bool, ups: seq<string>, segs: seq<string>)
    requires IsClean(rooted, segs)
    requires forall i :: 0 <= i < |ups| ==> ups[i] == ".."
    requires rooted ==> ups == []
    ensures PushAll(rooted, ups, segs) == ups + segs
    decreases |segs|
  {
    if segs == [] {
      assert ups + segs == ups;
    } else if !rooted && segs[0] == ".." {
      PushAllFixed(rooted, ups + [".."], segs[1..]);
      assert ups + [".."] + segs[1..] == ups + segs;
    } else {
      PushAllPlain(rooted, ups, segs);
    }
  }

  /** Cleaning a list twice, or cleaning a part before the whole, changes nothing: clean(clean(a) ++ b) == clean(a ++ b). */
  lemma CleanPart(rooted: bool, a: seq<string>, b: seq<string>)
    requires forall i :: 0 <= i < |a| ==> NoSlash(a[i])
    ensures PushAll(rooted, [], PushAll(rooted, [], a) + b) == PushAll(rooted, [], a + b)
  {
    var c := PushAll(rooted, [], a);
    assert IsClean(rooted, []);
    PushAllClean(rooted, [], a);
    PushAllFixed(rooted, [], c);
    assert [] + c == c;
    PushAllConcat(rooted, [], c, b);
    PushAllConcat(rooted, [], a, b);
  }

  // ------------------------------------------------ what cleaning preserves

  /** Going down one segment from a directory; the top has no parent but itself. */
  function Go(dir: seq<string>, seg: string): seq<string> {
    if seg == "" || seg == "." then dir
    else if seg == ".." then (if dir == [] then [] else dir[..|dir| - 1])
    else dir + [seg]
  }

  /** The directory that a path leads to from `dir`. */
  function Walk(dir: seq<string>, segs: seq<string>): seq<string>
    decreases |segs|
  {
    if segs == [] then dir else Go(Walk(dir, segs[..|segs| - 1]), segs[|segs| - 1])
  }

  lemma {:induction false} LastIsPlain(rooted: bool, segs: seq<string>)
    requires IsClean(rooted, segs) && segs != []
    ensures Plain(segs[|segs| - 1]) || (!rooted && segs[|segs| - 1] == "..")
  {
    if !rooted && segs[0] == ".." && |segs| > 1 {
      LastIsPlain(rooted, segs[1..]);
      assert segs[1..][|segs| - 2] == segs[|segs| - 1];
    }
  }

  lemma WalkPush(rooted: bool, dir: seq<string>, out: seq<string>, seg: string)
    requires IsClean(rooted, out) && (rooted ==> dir == [])
    ensures Walk(dir, Push(rooted, out, seg)) == Go(Walk(dir, out), seg)
  {
    hide IsClean, Walk;
    if out != [] {
      LastIsPlain(rooted, out);
    }
    if seg == ".." && out != [] && out[|out| - 1] != ".." {
      WalkBack(dir, out);
    } else if seg == ".." && rooted {
      WalkNowhere(dir);
    } else {
      WalkOn(dir, out, seg);
    }
  }

  lemma WalkNowhere(dir: seq<string>)
    ensures Walk(dir, []) == dir
  {
  }

  lemma WalkOn(dir: seq<string>, out: seq<string>, seg: string)
    ensures Walk(dir, out + [seg]) == Go(Walk(dir, out), seg)
  {
    assert (out + [seg])[..|out|] == out;
  }

  lemma WalkBack(dir: seq<string>, out: seq<string>)
    requires out != [] && Plain(out[|out| - 1])
    ensures Go(Walk(dir, out), "..") == Walk(dir, out[..|out| - 1])
  {
    var front := Walk(dir, out[..|out| - 1]);
    assert (front + [out[|out| - 1]])[..|front|] == front;
  }

  lemma {:induction false} WalkClean(rooted: bool, dir: seq<string>, segs: seq<string>)
    requires (rooted ==> dir == []) && forall i :: 0 <= i < |segs| ==> NoSlash(segs[i])
    ensures Walk(dir, PushAll(rooted, [], segs)) == Walk(dir, segs)
    decreases |segs|
  {
    if segs != [] {
      var front, seg := segs[..|segs| - 1], segs[|segs| - 1];
      WalkClean(rooted, dir, front);
      PushAllClean(rooted, [], front);
      assert segs == front + [seg];
      PushAllConcat(rooted, [], front, [seg]);
      assert PushAll(rooted, PushAll(rooted, [], front), [seg]) == Push(rooted, PushAll(rooted, [], front), seg);
      WalkPush(rooted, dir, PushAll(rooted, [], front), seg);
    }
  }

  /**
    `Clean` keeps the meaning and gives the canonical form: the cleaned path leads
    from every directory (from the top, if rooted) to where the original led, it
    stays rooted or relative, and `..` is left only in front of a relative path.
   */
  lemma CleanMeaning(s: string, dir: seq<string>)
    requires Rooted(s) ==> dir == []
    ensures Walk(dir, Split(Clean(s))) == Walk(dir, Split(s))
    ensures Rooted(Clean(s)) == Rooted(s) && IsClean(Rooted(s), CleanSegs(Clean(s)))
  {
    CleanTwice(s);
    CleanSegsClean(s);
    WalkClean(Rooted(s), dir, Split(s));
    WalkClean(Rooted(s), dir, Split(Clean(s)));
  }

  lemma {:induction false} UnsplitConcat(a: seq<string>, b: seq<string>)
    requires a != [] && b != []
    ensures Unsplit(a + b) == Unsplit(a) + "/" + Unsplit(b)
  {
    assert (a + b)[1..] == a[1..] + b;
    if |a| > 1 {
      UnsplitConcat(a[1..], b);
    } else {
      assert a[1..] + b == b;
    }
  }

  /** A rendered clean list reads back as itself. */
  lemma RenderReads(rooted: bool, segs: seq<string>)
    requires IsClean(rooted, segs)
    ensures Render(rooted, segs) != "" && Rooted(Render(rooted, segs)) == rooted
    ensures CleanSegs(Render(rooted, segs)) == segs
  {
    var text := Unsplit(segs);
    var parts := if segs == [] then [""] else segs;
    CleanNoSlash(rooted, segs);
    PushAllFixed(rooted, [], segs);
    assert PushAll(rooted, [], parts) == segs;
    if segs == [] {
      SplitNoSlash(".");
    } else {
      SplitUnsplit(segs);
      assert text[0] == segs[0][0];
    }
    if rooted {
      SplitRooted(text);
      assert ([""] + parts)[1..] == parts;
    }
  }

  lemma SplitRooted(text: string)
    ensures Split("/" + text) == [""] + Split(text)
  {
    assert ("/" + text)[1..] == text;
  }

  lemma {:induction false} CleanNoSlash(rooted: bool, segs: seq<string>)
    requires IsClean(rooted, segs)
    ensures forall i :: 0 <= i < |segs| ==> NoSlash(segs[i]) && segs[i] != ""
  {
    if segs != [] && !rooted && segs[0] == ".." {
      CleanNoSlash(rooted, segs[1..]);
      assert forall i :: 1 <= i < |segs| ==> segs[i] == segs[1..][i - 1];
    }
  }

  lemma CleanSegsClean(s: string)
    ensures IsClean(Rooted(s), CleanSegs(s))
  {
    PushAllClean(Rooted(s), [], Split(s));
  }

  /** Cleaning is idempotent, so every prefix that `Sub` computes is clean. */
  lemma CleanTwice(s: string)
    ensures Clean(Clean(s)) == Clean(s) && Clean(s) != "" && Rooted(Clean(s)) == Rooted(s)
    ensures CleanSegs(Clean(s)) == CleanSegs(s)
  {
    CleanSegsClean(s);
    RenderReads(Rooted(s), CleanSegs(s));
  }

  lemma SlashSegs(a: string, b: string)
    requires a != ""
    ensures Rooted(a + "/" + b) == Rooted(a)
    ensures CleanSegs(a + "/" + b) == PushAll(Rooted(a), CleanSegs(a), Split(b))
  {
    SplitJoin(a, b);
    PushAllConcat(Rooted(a), [], Split(a), Split(b));
  }

  /** Cleaning the front of a path before the whole changes nothing. */
  lemma CleanFront(a: string, b: string)
    requires a != ""
    ensures Clean(Clean(a) + "/" + b) == Clean(a + "/" + b)
  {
    CleanTwice(a);
    SlashSegs(a, b);
    SlashSegs(Clean(a), b);
  }

  lemma {:induction false} WalkConcat(dir: seq<string>, a: seq<string>, b: seq<string>)
    ensures Walk(dir, a + b) == Walk(Walk(dir, a), b)
    decreases |b|
  {
    if b == [] {
      assert a + b == a;
    } else {
      assert (a + b)[..|a + b| - 1] == a + b[..|b| - 1];
      WalkConcat(dir, a, b[..|b| - 1]);
    }
  }

  /** A joined path leads where following the first part and then the second leads. */
  lemma JoinMeaning(a: string, b: string, dir: seq<string>)
    requires Rooted(a) || (a == "" && Rooted(b)) ==> dir == []
    ensures Walk(dir, Split(Join(a, b))) == Walk(Walk(dir, Split(a)), Split(b))
  {
    if a == "" {
      assert Walk(dir, [""]) == dir;
      if b != "" {
        CleanMeaning(b, dir);
      }
    } else {
      SlashSegs(a, b);
      CleanMeaning(a + "/" + b, dir);
      SplitJoin(a, b);
      WalkConcat(dir, Split(a), Split(b));
    }
  }

  // ------------------------------------------------------------ resolution

  /** A directory and a path below it, written as one. */
  function Below(dir: string, name: string): string {
    if dir == "" then name else dir + "/" + name
  }

  /** A view after `Sub(a)` and then `Sub(b)` has the prefix of one `Sub` of both, for every a and b. */
  lemma NestedSub(prefix: string, a: string, b: string)
    ensures Join(Join(prefix, a), b) == Join(prefix, Below(a, b))
  {
    if prefix == "" {
      if a != "" {
        CleanTwice(a);
        CleanFront(a, b);
      }
    } else {
      var front := prefix + "/" + a;
      CleanTwice(front);
      CleanFront(front, b);
      if a == "" {
        SlashSegs(prefix, "");
        SlashSegs(front, b);
        SlashSegs(prefix, b);
        assert Split("") == [""];
      } else {
        assert front + "/" + b == prefix + "/" + (a + "/" + b);
      }
    }
  }

  predicate CleanPrefix(prefix: string) {
    prefix == "" || Clean(prefix) == prefix
  }

  /** Prefixes start empty and every `Sub` leaves a clean one. */
  lemma SubKeepsClean(prefix: string, dir: string)
    ensures CleanPrefix("") && CleanPrefix(Join(prefix, dir))
  {
    if !(prefix == "" && dir == "") {
      CleanTwice(if prefix == "" then dir else prefix + "/" + dir);
    }
  }

  /** `validPath`: the root, or plain segments only, and no backslash. */
  predicate ValidPath(name: string) {
    && (name == "." || forall i :: 0 <= i < |Split(name)| ==> Plain(Split(name)[i]))
    && '\\' !in name
  }

  /** Text `name[i..j]` is one whole element of the path. */
  predicate Element(name: string, i: int, j: int) {
    && 0 <= i <= j <= |name| && NoSlash(name[i..j])
    && (i == 0 || name[i - 1] == '/') && (j == |name| || name[j] == '/')
  }

  /** The elements of a path, by their bounds, are its segments. */
  lemma ElementInSplit(name: string, i: int, j: int)
    requires Element(name, i, j)
    ensures name[i..j] in Split(name)
  {
    hide Split, NoSlash;
    assert name[i..][..j - i] == name[i..j];
    FrontInSplit(name[i..], j - i);
    if i > 0 {
      assert name == name[..i - 1] + "/" + name[i..];
      SplitJoin(name[..i - 1], name[i..]);
    } else {
      assert name[i..] == name;
    }
  }

  lemma FrontInSplit(s: string, n: nat)
    requires n <= |s| && NoSlash(s[..n]) && (n == |s| || s[n] == '/')
    ensures s[..n] in Split(s)
  {
    hide Split, NoSlash;
    SplitNoSlash(s[..n]);
    if n < |s| {
      assert s == s[..n] + "/" + s[n + 1..];
      SplitJoin(s[..n], s[n + 1..]);
    } else {
      assert s[..n] == s;
    }
  }

  /** The `k`-th segment stands somewhere in the path as a whole element. */
  lemma {:induction false} SplitIsElement(name: string, k: nat) returns (i: int, j: int)
    requires k < |Split(name)|
    ensures Element(name, i, j) && name[i..j] == Split(name)[k]
  {
    hide Split, NoSlash, Element;
    if NoSlash(name) {
      SplitNoSlash(name);
      WholeElement(name);
      i, j := 0, |name|;
      assert name[0..|name|] == name;
    } else {
      var c := FirstSlash(name);
      var front, rest := name[..c], name[c + 1..];
      assert name == front + "/" + rest;
      SplitJoin(front, rest);
      SplitNoSlash(front);
      if k == 0 {
        i, j := 0, c;
        FirstElement(name, c);
      } else {
        var a, b := SplitIsElement(rest, k - 1);
        i, j := a + c + 1, b + c + 1;
        LaterElement(name, c, a, b);
      }
    }
  }

  lemma WholeElement(name: string)
    requires NoSlash(name)
    ensures Element(name, 0, |name|)
  {
    assert name[0..|name|] == name;
  }

  lemma FirstElement(name: string, c: nat)
    requires c < |name| && name[c] == '/' && NoSlash(name[..c])
    ensures Element(name, 0, c)
  {
    assert name[0..c] == name[..c];
  }

  lemma LaterElement(name: string, c: nat, i: int, j: int)
    requires c < |name| && name[c] == '/' && Element(name[c + 1..], i, j)
    ensures Element(name, i + c + 1, j + c + 1) && name[i + c + 1..j + c + 1] == name[c + 1..][i..j]
  {
    assert name[i + c + 1..j + c + 1] == name[c + 1..][i..j];
  }

  lemma {:induction false} FirstSlash(s: string) returns (c: nat)
    requires !NoSlash(s)
    ensures c < |s| && s[c] == '/' && NoSlash(s[..c])
  {
    if s[0] == '/' {
      c := 0;
    } else {
      assert s == [s[0]] + s[1..];
      var d := FirstSlash(s[1..]);
      c := d + 1;
      assert s[..c] == [s[0]] + s[1..][..d];
    }
  }

  /** The names that `Open` lets through: no backslash, and the root or no element that is empty, a dot or two dots. */
  lemma ValidPathMeaning(name: string)
    ensures ValidPath(name) <==>
            && (forall i :: 0 <= i < |name| ==> name[i] != '\\')
            && (name == "." ||
                forall i, j :: Element(name, i, j) ==> name[i..j] != "" && name[i..j] != "." && name[i..j] != "..")
  {
    if forall k :: 0 <= k < |Split(name)| ==> Plain(Split(name)[k]) {
      forall i, j | Element(name, i, j)
        ensures name[i..j] != "" && name[i..j] != "." && name[i..j] != ".."
      {
        ElementInSplit(name, i, j);
      }
    }
    if forall i, j :: Element(name, i, j) ==> name[i..j] != "" && name[i..j] != "." && name[i..j] != ".." {
      forall k | 0 <= k < |Split(name)|
        ensures Plain(Split(name)[k])
      {
        var i, j := SplitIsElement(name, k);
      }
    }
  }

  /** The name that `Open` stores: the root becomes empty, one trailing slash goes. */
  function OpenName(name: string): string {
    if name == "." then "" else TrimSlash(name)
  }

  function TrimSlash(name: string): string {
    if name != "" && name[|name| - 1] == '/' then name[..|name| - 1] else name
  }

  /** The object key, which is also the cache key. */
  function FullPath(prefix: string, name: string): string {
    Join(prefix, OpenName(name))
  }

  /** A key under a clean prefix, without any cleaning. */
  function Under(prefix: string, name: string): string {
    if prefix == "" || prefix == "." then name
    else if name == "" then prefix
    else if prefix == "/" then "/" + name
    else prefix + "/" + name
  }

  lemma CleanPrefixSegs(prefix: string)
    requires CleanPrefix(prefix) && prefix != ""
    ensures var segs := CleanSegs(prefix);
            && prefix == Render(Rooted(prefix), segs)
            && (segs == [] <==> prefix == "." || prefix == "/")
  {
    CleanSegsClean(prefix);
    CleanNoSlash(Rooted(prefix), CleanSegs(prefix));
    var segs := CleanSegs(prefix);
    DotSegs();
  }

  lemma DotSegs()
    ensures CleanSegs(".") == [] && CleanSegs("/") == []
  {
    SplitNoSlash(".");
    SplitRooted("");
    assert ([""] + [""])[1..] == [""];
  }

  lemma ValidName(name: string)
    requires ValidPath(name) && name != "."
    ensures OpenName(name) == name && name != ""
    ensures forall i :: 0 <= i < |Split(name)| ==> Plain(Split(name)[i])
  {
    EdgeSegs(name);
    var segs := Split(name);
    assert Plain(segs[0]) && Plain(segs[|segs| - 1]);
  }

  /**
    Under a clean prefix the object key of a valid name is the prefix, a slash
    and the name: it never leaves the prefix.
   */
  lemma KeyIsPrefixAndName(prefix: string, name: string)
    requires CleanPrefix(prefix) && ValidPath(name) && name != "."
    ensures FullPath(prefix, name) == Under(prefix, name)
  {
    ValidName(name);
    var segs := Split(name);
    UnsplitSplit(name);
    if prefix == "" {
      PushAllPlain(Rooted(name), [], segs);
      assert [] + segs == segs;
      EdgeSegs(name);
    } else {
      CleanPrefixSegs(prefix);
      SlashSegs(prefix, name);
      PushAllPlain(Rooted(prefix), CleanSegs(prefix), segs);
      if CleanSegs(prefix) != [] {
        UnsplitConcat(CleanSegs(prefix), segs);
      } else {
        assert CleanSegs(prefix) + segs == segs;
      }
    }
  }

  /** The key of the root is the prefix itself. */
  lemma RootKey(prefix: string)
    requires CleanPrefix(prefix)
    ensures FullPath(prefix, ".") == prefix
  {
    if prefix != "" {
      SlashSegs(prefix, "");
      assert PushAll(Rooted(prefix), CleanSegs(prefix), [""]) == CleanSegs(prefix);
    }
  }

  /** Distinct names of one view have distinct cache keys. */
  lemma KeysDistinct(prefix: string, a: string, b: string)
    requires CleanPrefix(prefix) && ValidPath(a) && ValidPath(b)
    ensures FullPath(prefix, a) == FullPath(prefix, b) <==> a == b
  {
    RootKey(prefix);
    if a != "." {
      KeyIsPrefixAndName(prefix, a);
      ValidName(a);
    }
    if b != "." {
      KeyIsPrefixAndName(prefix, b);
      ValidName(b);
    }
    hide FullPath, ValidPath, CleanPrefix;
    if a != "." && b != "." && a != b {
      SamePrefix(prefix + "/", a, b);
      SamePrefix("/", a, b);
    } else if a != b {
      var n := if a == "." then b else a;
      assert |prefix + "/" + n| > |prefix|;
      assert Under(prefix, n) != prefix;
    }
  }

  /** The prefix under which `iteratorFor` lists a directory, given the name that was opened. */
  function ListPrefix(prefix: string, name: string): string {
    var key := Join(prefix, OpenName(name));
    if key == "" then "" else key + "/"
  }

  lemma ValidBelow(dir: string, name: string)
    requires ValidPath(dir) && dir != "." && ValidPath(name) && name != "."
    ensures ValidPath(dir + "/" + name) && dir + "/" + name != "." && dir != ""
  {
    ValidName(dir);
    ValidName(name);
    SplitJoin(dir, name);
    hide Split, NoSlash;
    assert |dir + "/" + name| > 1;
  }

  lemma UnderBelow(prefix: string, dir: string, name: string)
    requires dir != ""
    ensures Under(prefix, dir) != "" && Under(prefix, dir) + "/" + name == Under(prefix, dir + "/" + name)
  {
    assert prefix + "/" + dir + "/" + name == prefix + "/" + (dir + "/" + name);
    assert "/" + dir + "/" + name == "/" + (dir + "/" + name);
  }

  /** What is listed below a directory is what opens as a name below it. */
  lemma ListsDirectory(prefix: string, dir: string, name: string)
    requires CleanPrefix(prefix) && ValidPath(dir) && dir != "." && ValidPath(name) && name != "."
    ensures ValidPath(dir + "/" + name)
    ensures ListPrefix(prefix, dir) + name == FullPath(prefix, dir + "/" + name)
  {
    ValidBelow(dir, name);
    hide Split, ValidPath, Join, CleanPrefix;
    KeyIsPrefixAndName(prefix, dir);
    KeyIsPrefixAndName(prefix, dir + "/" + name);
    assert FullPath(prefix, dir) == Join(prefix, OpenName(dir));
    hide FullPath, Under;
    UnderBelow(prefix, dir, name);
  }

  /** For the root of a view this fails exactly after `Sub(".")` or `Sub("/")`, whose listings look below `./` and `//`. */
  lemma ListsRoot(prefix: string, name: string)
    requires CleanPrefix(prefix) && ValidPath(name) && name != "."
    ensures ListPrefix(prefix, ".") + name == FullPath(prefix, name) <==> prefix != "." && prefix != "/"
  {
    RootKey(prefix);
    ValidName(name);
    KeyIsPrefixAndName(prefix, name);
    assert FullPath(prefix, ".") == Join(prefix, OpenName("."));
    hide Join, ValidPath, CleanPrefix;
    if prefix == "." || prefix == "/" {
      assert |ListPrefix(prefix, ".") + name| == 2 + |name|;
    } else {
      assert ListPrefix(prefix, ".") == if prefix == "" then "" else prefix + "/";
    }
  }

  lemma SamePrefix(p: string, a: string, b: string)
    ensures p + a == p + b <==> a == b
  {
    assert a == (p + a)[|p|..] && b == (p + b)[|p|..];
  }

  // ------------------------------------------------- last element of a path

  function LastSeg(s: string): string {
    var segs := Split(s);
    segs[|segs| - 1]
  }

  /** `path.Ext(name) != ""`: a dot in the last element. */
  predicate HasExt(name: string) {
    '.' in LastSeg(name)
  }

  /** The last element starts at `n`. */
  predicate LastStart(s: string, n: nat) {
    n <= |s| && NoSlash(s[n..]) && (n > 0 ==> s[n - 1] == '/')
  }

  lemma {:induction false} FindLastStart(s: string) returns (n: nat)
    ensures LastStart(s, n)
  {
    if s == "" || s[|s| - 1] == '/' {
      n := |s|;
    } else {
      var front := s[..|s| - 1];
      n := FindLastStart(front);
      assert s[n..] == front[n..] + [s[|s| - 1]];
    }
  }

  lemma LastSegAt(s: string, n: nat)
    requires LastStart(s, n)
    ensures LastSeg(s) == s[n..]
  {
    var last := s[n..];
    SplitNoSlash(last);
    if n > 0 {
      var front := s[..n - 1];
      assert s == front + "/" + last;
      SplitJoin(front, last);
      hide Split;
      assert LastSeg(s) == last;
    } else {
      assert s == last;
    }
  }

  /** There is an extension exactly if some dot has no slash after it. */
  lemma ExtMeaning(s: string)
    ensures HasExt(s) <==> exists i :: 0 <= i < |s| && s[i] == '.' && NoSlash(s[i..])
  {
    hide LastSeg;
    var n := FindLastStart(s);
    LastSegAt(s, n);
    var last := s[n..];
    if i :| 0 <= i < |s| && s[i] == '.' && NoSlash(s[i..]) {
      SlashSeen(s, i, n - 1);
      assert last[i - n] == '.';
    }
    if j :| 0 <= j < |last| && last[j] == '.' {
      assert last[j..] == s[n + j..];
    }
  }

  lemma SlashSeen(s: string, i: nat, c: int)
    ensures i <= c < |s| && s[c] == '/' ==> !NoSlash(s[i..])
  {
    if i <= c < |s| {
      assert s[i..][c - i] == s[c];
    }
  }

  function TrimSlashes(s: string): string {
    if s != "" && s[|s| - 1] == '/' then TrimSlashes(s[..|s| - 1]) else s
  }

  /** `path.Base`. */
  function Base(s: string): string {
    if s == "" then "." else if TrimSlashes(s) == "" then "/" else LastSeg(TrimSlashes(s))
  }

  /** The last element of a name is the last element of its key in every view. */
  lemma LastOfKey(prefix: string, name: string)
    requires CleanPrefix(prefix) && ValidPath(name) && name != "."
    ensures LastSeg(FullPath(prefix, name)) == LastSeg(name)
  {
    KeyIsPrefixAndName(prefix, name);
    ValidName(name);
    hide FullPath, Split, ValidPath, CleanPrefix;
    if prefix == "/" {
      SplitRooted(name);
    } else {
      SplitJoin(prefix, name);
    }
  }

  lemma BaseOfName(name: string)
    requires name != "" && name[|name| - 1] != '/'
    ensures Base(name) == LastSeg(name)
  {
  }

  /** A directory entry carries its name with a trailing slash; `Base` takes it off. */
  lemma BaseOfDir(name: string)
    requires name != "" && name[|name| - 1] != '/'
    ensures Base(name + "/") == LastSeg(name)
  {
    var dir := name + "/";
    assert dir[..|dir| - 1] == name && dir[|dir| - 1] == '/';
    assert TrimSlashes(dir) == TrimSlashes(name) == name;
  }
}
