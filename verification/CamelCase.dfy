// Identifier rewriting: camelCase and camelCaseVars in cmd/protoc-gen-http/http.go.
module CamelCase {
  import opened Paths

  predicate IsLower(c: char) { 'a' <= c <= 'z' }

  predicate IsDigit(c: char) { '0' <= c <= '9' }

  // c ^ ' ' on a lower-case letter.
  function Upper(c: char): (u: char)
    requires IsLower(c)
    ensures 'A' <= u <= 'Z'
  {
    (c as int - 32) as char
  }

  // ---------- what a character becomes, seen from its neighbours alone ----------

  // An underscore is dropped before a lower-case letter, and is an 'X' at the start.  A
  // lower-case letter is capitalised at the start, after an underscore and after a digit.
  // Everything else stays.
  function Image(s: string, i: nat): (r: string)
    requires i < |s|
  {
    if s[i] == '_' then
      if i == 0 then "X"
      else if i + 1 < |s| && IsLower(s[i + 1]) then ""
      else "_"
    else if IsLower(s[i]) && (i == 0 || s[i - 1] == '_' || IsDigit(s[i - 1])) then [Upper(s[i])]
    else [s[i]]
  }

  // The images of the characters from `from` up to `to`.
  function Images(s: string, from: nat, to: nat): (r: string)
    requires from <= to <= |s|
  {
    if from == to then "" else Images(s, from, to - 1) + Image(s, to - 1)
  }

  function Camel(s: string): (r: string) { Images(s, 0, |s|) }

  lemma ImagesNone(s: string)
    ensures Images(s, 0, 0) == ""
  {
  }

  lemma ImagesNext(s: string, i: nat)
    requires i < |s|
    ensures Images(s, 0, i + 1) == Images(s, 0, i) + Image(s, i)
  {
  }

  // The image of a character, by the branches of the loop.
  lemma ImageAt(s: string, i: nat)
    requires i < |s|
    ensures s[i] == '_' && i == 0 ==> Image(s, i) == "X"
    ensures s[i] == '_' && i > 0 ==> Image(s, i) == if i + 1 < |s| && IsLower(s[i + 1]) then "" else "_"
    ensures IsLower(s[i]) ==>
              Image(s, i) == [if i == 0 || s[i - 1] == '_' || IsDigit(s[i - 1]) then Upper(s[i]) else s[i]]
    ensures s[i] != '_' && !IsLower(s[i]) ==> Image(s, i) == [s[i]]
  {
  }

  /** camelCase, word by word. */
  method Rewrite(s: string) returns (t: string)
    ensures t == Camel(s)
    ensures Rewrites(s, t)
    ensures Letters(t) == (if s != "" && s[0] == '_' then "x" else "") + Letters(s)
  {
    hide Images, Image, Rewrites, Letters;
    CamelRewrites(s);
    LettersStay(s);
    ImagesNone(s);
    if s == "" {
      return "";
    }
    t := "";
    var i := 0;
    if s[0] == '_' {
      ImagesNext(s, 0);
      ImageAt(s, 0);
      t := t + ['X'];
      i := i + 1;
    }
    // The character at i starts a word: the one before it is none, a dropped or kept
    // underscore, or a digit, or the word before it has ended.
    while i < |s|
      invariant i <= |s|
      invariant t == Images(s, 0, i)
      invariant i > 0 && i < |s| && IsLower(s[i]) ==> s[i - 1] == '_' || IsDigit(s[i - 1])
    {
      ImagesNext(s, i);
      ImageAt(s, i);
      var c := s[i];
      if c == '_' && i + 1 < |s| && IsLower(s[i + 1]) {
        i := i + 1;
        continue;
      }
      if IsDigit(c) {
        t := t + [c];
        i := i + 1;
        continue;
      }
      if IsLower(c) {
        c := Upper(c);
      }
      t := t + [c];
      while i + 1 < |s| && IsLower(s[i + 1])
        invariant i < |s|
        invariant t == Images(s, 0, i + 1)
        invariant i + 1 < |s| && IsLower(s[i + 1]) ==> s[i] != '_' && !IsDigit(s[i])
        decreases |s| - i
      {
        i := i + 1;
        ImagesNext(s, i);
        ImageAt(s, i);
        t := t + [s[i]];
      }
      i := i + 1;
    }
  }

  // ---------- position by position ----------

  // An underscore that goes: not the first character, and a lower-case letter behind it.
  predicate Goes(s: string, i: nat) {
    0 < i && i + 1 < |s| && s[i] == '_' && 'a' <= s[i + 1] <= 'z'
  }

  // What stands for the character at i, if it stays.
  predicate StandsFor(s: string, i: nat, u: char) {
    && i < |s|
    && (if i == 0 && s[i] == '_' then u == 'X'
        else if 'a' <= s[i] <= 'z' && (i == 0 || s[i - 1] == '_' || '0' <= s[i - 1] <= '9')
        then u as int == s[i] as int - ('a' as int - 'A' as int)
        else u == s[i])
  }

  // The characters of t stand, in order, for the characters of s that stay.
  ghost predicate RewritesTo(s: string, n: nat, t: string, kept: seq<nat>) {
    && |t| == |kept|
    && (forall j, k :: 0 <= j < k < |kept| ==> kept[j] < kept[k])
    && (forall i: nat :: i in kept <==> i < n && !Goes(s, i))
    && (forall k :: 0 <= k < |kept| ==> StandsFor(s, kept[k], t[k]))
  }

  ghost predicate Rewrites(s: string, t: string) {
    exists kept :: RewritesTo(s, |s|, t, kept)
  }

  lemma {:induction false} ImagesRewrite(s: string, n: nat) returns (kept: seq<nat>)
    requires n <= |s|
    ensures RewritesTo(s, n, Images(s, 0, n), kept)
  {
    hide Images, Image, Goes, StandsFor;
    if n == 0 {
      kept := [];
      ImagesNone(s);
    } else {
      kept := ImagesRewrite(s, n - 1);
      ImagesNext(s, n - 1);
      ImageStands(s, n - 1);
      RewritesMore(s, n - 1, Images(s, 0, n - 1), kept);
      if Goes(s, n - 1) {
        assert Images(s, 0, n) == Images(s, 0, n - 1);
      } else {
        kept := kept + [n - 1];
        assert Image(s, n - 1) == [Image(s, n - 1)[0]];
      }
    }
  }

  lemma RewritesMore(s: string, n: nat, t: string, kept: seq<nat>)
    requires n < |s| && RewritesTo(s, n, t, kept)
    ensures Goes(s, n) ==> RewritesTo(s, n + 1, t, kept)
    ensures forall u :: !Goes(s, n) && StandsFor(s, n, u) ==> RewritesTo(s, n + 1, t + [u], kept + [n])
  {
    hide Goes, StandsFor;
    forall i: nat ensures i in kept + [n] <==> i in kept || i == n {
    }
    forall k | 0 <= k < |kept| ensures kept[k] < n {
      assert kept[k] in kept;
    }
  }

  lemma ImageStands(s: string, i: nat)
    requires i < |s|
    ensures if Goes(s, i) then Image(s, i) == ""
            else |Image(s, i)| == 1 && StandsFor(s, i, Image(s, i)[0])
  {
  }

  lemma CamelRewrites(s: string)
    ensures Rewrites(s, Camel(s))
  {
    var kept := ImagesRewrite(s, |s|);
  }

  // A character whatever its case; underscores do not count.
  function Letter(c: char): (r: string) {
    if c == '_' then "" else if 'A' <= c <= 'Z' then [(c as int + 32) as char] else [c]
  }

  function Letters(s: string): (r: string) {
    if s == "" then "" else Letters(s[..|s| - 1]) + Letter(s[|s| - 1])
  }

  lemma LettersOne(s: string, c: char)
    ensures Letters(s + [c]) == Letters(s) + Letter(c)
  {
    assert (s + [c])[..|s|] == s;
  }

  lemma {:induction false} LettersAppend(a: string, b: string)
    ensures Letters(a + b) == Letters(a) + Letters(b)
  {
    hide Letters, Letter;
    LettersOfNone();
    if b == "" {
      assert a + b == a;
    } else {
      var n := |b| - 1;
      LettersAppend(a, b[..n]);
      LettersOne(a + b[..n], b[n]);
      LettersOne(b[..n], b[n]);
      assert a + b == (a + b[..n]) + [b[n]] && b == b[..n] + [b[n]];
    }
  }

  // They stay, in order; only an underscore at the start becomes the letter x.
  lemma LettersStay(s: string)
    ensures Letters(Camel(s)) == (if s != "" && s[0] == '_' then "x" else "") + Letters(s)
  {
    hide Letters;
    LettersOfImages(s, |s|);
    assert s[..|s|] == s;
  }

  lemma {:induction false} LettersOfImages(s: string, n: nat)
    requires n <= |s|
    ensures Letters(Images(s, 0, n)) == (if n > 0 && s[0] == '_' then "x" else "") + Letters(s[..n])
  {
    hide Images, Image, Letters;
    if n == 0 {
      ImagesNone(s);
      LettersOfNone();
    } else {
      LettersOfImages(s, n - 1);
      ImagesNext(s, n - 1);
      LettersAppend(Images(s, 0, n - 1), Image(s, n - 1));
      LettersAppend(s[..n - 1], [s[n - 1]]);
      assert s[..n] == s[..n - 1] + [s[n - 1]];
      LettersOfImage(s, n - 1);
      if n == 1 {
        assert s[..0] == "";
        LettersOfNone();
        LetterAlone(s[0]);
      }
    }
  }

  lemma LettersOfNone()
    ensures Letters("") == ""
  {
  }

  lemma LettersOfImage(s: string, i: nat)
    requires i < |s|
    ensures Letters(Image(s, i)) == if i == 0 && s[i] == '_' then "x" else Letters([s[i]])
  {
    hide Image, Letters, Letter, Upper;
    var c := s[i];
    ImageAt(s, i);
    LetterAlone(c);
    LetterOfCapital(c);
    LettersOfNone();
    if c == '_' && i == 0 {
      LetterAlone('X');
    } else if IsLower(c) {
      LetterAlone(Upper(c));
    }
  }

  lemma LetterOfCapital(c: char)
    ensures IsLower(c) ==> Letter(Upper(c)) == Letter(c)
    ensures Letter('X') == "x" && Letter('_') == ""
  {
  }

  lemma LetterAlone(c: char)
    ensures Letters([c]) == Letter(c)
  {
    assert [c][..0] == "" && Letters("") == "";
  }

  // ---------- the shape of the result ----------

  // No leading underscore or lower-case letter, no lower-case letter after an underscore
  // or a digit.
  predicate WellCased(t: string) {
    && (t != "" ==> t[0] != '_' && !IsLower(t[0]))
    && forall i :: 0 < i < |t| && IsLower(t[i]) ==> t[i - 1] != '_' && !IsDigit(t[i - 1])
  }

  lemma ImageShape(s: string, i: nat)
    requires i < |s|
    ensures |Image(s, i)| <= 1
    ensures Image(s, i) != "" && IsLower(Image(s, i)[0]) ==>
              i > 0 && Image(s, i)[0] == s[i] && s[i - 1] != '_' && !IsDigit(s[i - 1])
    ensures i == 0 ==> Image(s, i) != "" && Image(s, i)[0] != '_' && !IsLower(Image(s, i)[0])
    ensures Image(s, i) == "" <==> i > 0 && s[i] == '_' && i + 1 < |s| && IsLower(s[i + 1])
    ensures Image(s, i) != "" && (Image(s, i)[0] == '_' || IsDigit(Image(s, i)[0])) ==> Image(s, i)[0] == s[i]
  {
  }

  // The prefix rewritten so far: it is well cased, no longer than what it came from, and
  // ends in an underscore or a digit only if that does.
  lemma {:induction false} PrefixShape(s: string, n: nat)
    requires n <= |s|
    ensures var t := Images(s, 0, n);
            && WellCased(t) && |t| <= n
            && (n > 0 ==> t != "")
            && (n > 0 && Image(s, n - 1) != "" ==> t[|t| - 1] == Image(s, n - 1)[0])
  {
    hide Images, Image, WellCased;
    if n == 0 {
      ImagesNone(s);
      EmptyIsWellCased();
    } else {
      PrefixShape(s, n - 1);
      ImagesNext(s, n - 1);
      ImageShape(s, n - 1);
      if n > 1 {
        ImageShape(s, n - 2);
      }
      if Image(s, n - 1) != "" {
        assert Image(s, n - 1) == [Image(s, n - 1)[0]];
        WellCasedGrows(Images(s, 0, n - 1), Image(s, n - 1)[0]);
      } else {
        assert Images(s, 0, n) == Images(s, 0, n - 1);
      }
    }
  }

  lemma EmptyIsWellCased()
    ensures WellCased("")
  {
  }

  lemma WellCasedGrows(t: string, c: char)
    requires WellCased(t)
    requires t == "" ==> c != '_' && !IsLower(c)
    requires t != "" && IsLower(c) ==> t[|t| - 1] != '_' && !IsDigit(t[|t| - 1])
    ensures WellCased(t + [c])
  {
  }

  lemma CamelIsWellCased(s: string)
    ensures WellCased(Camel(s)) && |Camel(s)| <= |s|
    ensures Camel(s) == "" <==> s == ""
  {
    PrefixShape(s, |s|);
  }

  lemma {:induction false} WellCasedPrefix(s: string, n: nat)
    requires WellCased(s) && n <= |s|
    ensures Images(s, 0, n) == s[..n]
  {
    if n > 0 {
      WellCasedPrefix(s, n - 1);
      assert s[..n] == s[..n - 1] + [s[n - 1]];
    }
  }

  // The fixed points are exactly the well-cased strings.
  lemma FixedPoints(s: string)
    ensures Camel(s) == s <==> WellCased(s)
  {
    if WellCased(s) {
      WellCasedPrefix(s, |s|);
    }
    CamelIsWellCased(s);
  }

  lemma Idempotent(s: string)
    ensures Camel(Camel(s)) == Camel(s)
  {
    CamelIsWellCased(s);
    FixedPoints(Camel(s));
  }

  // ---------- dotted variables ----------

  function CamelAll(parts: seq<string>): (r: seq<string>)
    ensures |r| == |parts|
  {
    if parts == [] then [] else CamelAll(parts[..|parts| - 1]) + [Camel(parts[|parts| - 1])]
  }

  function CamelVars(s: string): (r: string) { Join(CamelAll(Split(s))) }

  /** camelCaseVars. */
  method RewriteVars(s: string) returns (r: string)
    ensures r == CamelVars(s)
    ensures |Split(r)| == |Split(s)|
    ensures forall i :: 0 <= i < |Split(s)| ==> Rewrites(Split(s)[i], Split(r)[i])
  {
    hide Split, Join, Rewrites, Camel, CamelAll, Letters;
    VarsRewritten(s);
    CamelAllNone();
    var subs := Split(s);
    var vars := [];
    for i := 0 to |subs|
      invariant vars == CamelAll(subs[..i])
    {
      var v := Rewrite(subs[i]);
      CamelAllNext(subs, i);
      vars := vars + [v];
    }
    assert subs[..|subs|] == subs;
    r := Join(vars);
  }

  lemma CamelAllNone()
    ensures CamelAll([]) == []
  {
  }

  lemma CamelAllNext(parts: seq<string>, i: nat)
    requires i < |parts|
    ensures CamelAll(parts[..i + 1]) == CamelAll(parts[..i]) + [Camel(parts[i])]
  {
    assert parts[..i + 1][..i] == parts[..i];
  }

  lemma VarsRewritten(s: string)
    ensures |Split(CamelVars(s))| == |Split(s)|
    ensures forall i :: 0 <= i < |Split(s)| ==> Rewrites(Split(s)[i], Split(CamelVars(s))[i])
  {
    hide Split, CamelVars, Rewrites, Camel, CamelAll;
    VarsIdempotent(s);
    forall i | 0 <= i < |Split(s)| ensures Rewrites(Split(s)[i], Split(CamelVars(s))[i]) {
      CamelAllAt(Split(s), i);
      CamelRewrites(Split(s)[i]);
    }
  }

  lemma {:induction false} CamelAllAt(parts: seq<string>, i: nat)
    requires i < |parts|
    ensures CamelAll(parts)[i] == Camel(parts[i])
  {
    if i < |parts| - 1 {
      CamelAllAt(parts[..|parts| - 1], i);
    }
  }

  lemma {:induction false} ImagesDotFree(s: string, n: nat)
    requires n <= |s| && DotFree(s)
    ensures DotFree(Images(s, 0, n))
  {
    if n > 0 {
      ImagesDotFree(s, n - 1);
      assert s[n - 1] in s;
    }
  }

  lemma {:induction false} CamelAllKeeps(parts: seq<string>)
    requires forall i :: 0 <= i < |parts| ==> DotFree(parts[i])
    ensures forall i :: 0 <= i < |parts| ==> DotFree(CamelAll(parts)[i])
    ensures CamelAll(CamelAll(parts)) == CamelAll(parts)
  {
    if parts != [] {
      var n := |parts| - 1;
      CamelAllKeeps(parts[..n]);
      ImagesDotFree(parts[n], |parts[n]|);
      Idempotent(parts[n]);
      assert CamelAll(parts)[..n] == CamelAll(parts[..n]);
    }
  }

  // The components are rewritten one by one, none is split or joined, and a second
  // rewriting changes nothing.
  lemma VarsIdempotent(s: string)
    ensures Split(CamelVars(s)) == CamelAll(Split(s))
    ensures CamelVars(CamelVars(s)) == CamelVars(s)
  {
    hide Camel;
    SplitDotFree(s);
    CamelAllKeeps(Split(s));
    SplitJoin(CamelAll(Split(s)));
  }
}
