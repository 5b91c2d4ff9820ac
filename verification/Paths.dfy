// Dotted paths: strings.Split and strings.Join with the separator ".".
module Paths {

  // strings.Split(s, "."), one character at a time; the result is never empty.
  function Split(s: string): (r: seq<string>)
    ensures |r| >= 1
  {
    if s == [] then [""]
    else
      var n := |s| - 1;
      var r := Split(s[..n]);
      if s[n] == '.' then r + [""] else r[..|r| - 1] + [r[|r| - 1] + [s[n]]]
  }

  // strings.Join(parts, ".").
  function Join(parts: seq<string>): (r: string) {
    if parts == [] then ""
    else if |parts| == 1 then parts[0]
    else Join(parts[..|parts| - 1]) + "." + parts[|parts| - 1]
  }

  predicate DotFree(part: string) { '.' !in part }

  lemma JoinNew(parts: seq<string>)
    requires parts != []
    ensures Join(parts + [""]) == Join(parts) + "."
  {
    JoinLast(parts, "");
  }

  lemma JoinGrow(parts: seq<string>, c: char)
    requires parts != []
    ensures Join(parts[..|parts| - 1] + [parts[|parts| - 1] + [c]]) == Join(parts) + [c]
  {
    hide Join;
    var n := |parts| - 1;
    var front, last := parts[..n], parts[n];
    assert parts == front + [last];
    JoinLast(front, last);
    JoinLast(front, last + [c]);
    if n > 0 {
      assert Join(front) + "." + (last + [c]) == Join(front) + "." + last + [c];
    }
  }

  lemma JoinLast(front: seq<string>, last: string)
    ensures Join(front + [last]) == if front == [] then last else Join(front) + "." + last
  {
    assert (front + [last])[..|front|] == front;
  }

  lemma {:induction false} JoinSplit(s: string)
    ensures Join(Split(s)) == s
  {
    hide Join;
    if s != [] {
      var n := |s| - 1;
      var r := Split(s[..n]);
      JoinSplit(s[..n]);
      assert s == s[..n] + [s[n]];
      if s[n] == '.' {
        JoinNew(r);
      } else {
        JoinGrow(r, s[n]);
      }
    } else {
      JoinOne("");
    }
  }

  lemma JoinOne(part: string)
    ensures Join([part]) == part
  {
  }

  lemma {:induction false} SplitPart(part: string)
    requires DotFree(part)
    ensures Split(part) == [part]
  {
    if part != [] {
      var n := |part| - 1;
      assert part[n] in part;
      SplitPart(part[..n]);
      assert part == part[..n] + [part[n]];
    }
  }

  // One more component.
  lemma {:induction false} SplitMore(a: string, part: string)
    requires DotFree(part)
    ensures Split(a + "." + part) == Split(a) + [part]
  {
    var s := a + "." + part;
    var n := |s| - 1;
    if part == [] {
      assert s[..n] == a;
    } else {
      var m := |part| - 1;
      assert part[m] in part;
      SplitMore(a, part[..m]);
      assert s[..n] == a + "." + part[..m];
      assert part == part[..m] + [part[m]];
    }
  }

  lemma {:induction false} SplitJoin(parts: seq<string>)
    requires parts != [] && forall i :: 0 <= i < |parts| ==> DotFree(parts[i])
    ensures Split(Join(parts)) == parts
  {
    hide Split, DotFree;
    if |parts| == 1 {
      SplitPart(parts[0]);
    } else {
      var n := |parts| - 1;
      SplitJoin(parts[..n]);
      SplitMore(Join(parts[..n]), parts[n]);
    }
  }

  lemma {:induction false} SplitDotFree(s: string)
    ensures forall i :: 0 <= i < |Split(s)| ==> DotFree(Split(s)[i])
  {
    if s != [] {
      SplitDotFree(s[..|s| - 1]);
    }
  }
}
