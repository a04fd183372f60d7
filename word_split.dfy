/** Splitting the reassembly buffer after every space, as
    `buffer.split(/(?<= )/)` does in the `/chat` handler. */
module WordSplit {

  /** The concatenation of a sequence of strings, in order. */
  function Concat(ss: seq<string>): string {
    if ss == [] then "" else ss[0] + Concat(ss[1..])
  }

  lemma {:induction false} ConcatAppend(a: seq<string>, b: seq<string>)
    ensures Concat(a + b) == Concat(a) + Concat(b)
  {
    if a == [] {
      assert a + b == b;
    } else {
      assert (a + b)[1..] == a[1..] + b;
      ConcatAppend(a[1..], b);
    }
  }

  /** The concatenation ends with the last string. */
  lemma ConcatLast(ss: seq<string>)
    requires ss != []
    ensures Concat(ss) == Concat(ss[..|ss| - 1]) + ss[|ss| - 1]
  {
    assert ss == ss[..|ss| - 1] + [ss[|ss| - 1]];
    ConcatAppend(ss[..|ss| - 1], [ss[|ss| - 1]]);
  }

  /** No space anywhere except, possibly, as the final character. */
  predicate SpaceFreeBeforeLast(w: string) {
    forall i :: 0 <= i < |w| - 1 ==> w[i] != ' '
  }

  /** A complete word: non-empty, ends with a space, holds no other space. */
  predicate IsWord(w: string) {
    |w| > 0 && w[|w| - 1] == ' ' && SpaceFreeBeforeLast(w)
  }

  /** `r` cuts `s` at every index i with 0 < i < |s| and s[i-1] == ' ',
      and nowhere else: every piece but the last is a complete word, the
      last holds no space before its final character, and the last is
      empty only when it is the only piece. */
  predicate IsSplitOf(r: seq<string>, s: string) {
    && |r| > 0
    && Concat(r) == s
    && (forall k :: 0 <= k < |r| - 1 ==> IsWord(r[k]))
    && SpaceFreeBeforeLast(r[|r| - 1])
    && (|r| > 1 ==> r[|r| - 1] != "")
  }

  /** The ECMAScript split loop for the zero-width pattern `(?<= )`: `p` is
      where the current piece starts and `q` the position being tried. A
      match at `q` is a cut unless it is empty at `p`; positions are tried
      only below |s|, so a space that ends `s` is never a cut. */
  function SplitFrom(s: string, p: nat, q: nat): (r: seq<string>)
    requires p <= q <= |s|
    ensures |r| > 0
    decreases |s| - q, q - p
  {
    if q == |s| then [s[p..]]
    else if q != p && s[q - 1] == ' ' then [s[p..q]] + SplitFrom(s, q, q)
    else SplitFrom(s, p, q + 1)
  }

  /** `s.split(/(?<= )/)`. */
  function SplitAfterSpaces(s: string): (r: seq<string>)
    ensures |r| > 0
  {
    SplitFrom(s, 0, 0)
  }

  /** A word followed by the split of a non-empty string is a split. */
  lemma ConsSplit(w: string, rest: seq<string>, t: string)
    requires IsWord(w) && IsSplitOf(rest, t) && t != ""
    ensures IsSplitOf([w] + rest, w + t)
  {
    var r := [w] + rest;
    assert r[1..] == rest;
    assert forall k :: 1 <= k < |r| ==> r[k] == rest[k - 1];
    LastPieceNotEmpty(rest, t);
  }

  /** The loop cuts exactly after the spaces it passes, provided none lies
      strictly between the start of the current piece and the position tried. */
  lemma {:induction false} SplitFromIsSplit(s: string, p: nat, q: nat)
    requires p <= q <= |s|
    requires forall i :: p <= i < q - 1 ==> s[i] != ' '
    ensures IsSplitOf(SplitFrom(s, p, q), s[p..])
    decreases |s| - q, q - p
  {
    if q == |s| {
      assert Concat([s[p..]]) == s[p..] + Concat([]);
    } else if q != p && s[q - 1] == ' ' {
      SplitFromIsSplit(s, q, q);
      ConsSplit(s[p..q], SplitFrom(s, q, q), s[q..]);
      assert s[p..q] + s[q..] == s[p..];
    } else {
      SplitFromIsSplit(s, p, q + 1);
    }
  }

  /** The pieces of `s.split(/(?<= )/)` are those IsSplitOf describes. */
  lemma SplitIsSplit(s: string)
    ensures IsSplitOf(SplitAfterSpaces(s), s)
  {
    SplitFromIsSplit(s, 0, 0);
    assert s[0..] == s;
  }

  /** IsSplitOf determines the pieces: there is one way to cut a string. */
  lemma {:induction false} SplitUnique(r1: seq<string>, r2: seq<string>, s: string)
    requires IsSplitOf(r1, s) && IsSplitOf(r2, s)
    ensures r1 == r2
    decreases |r1|
  {
    var a, b := r1[0], r2[0];
    assert r1 == [a] + r1[1..] && r2 == [b] + r2[1..];
    assert s == a + Concat(r1[1..]) && s == b + Concat(r2[1..]);
    SingleIff(r1, s);
    SingleIff(r2, s);
    if |r1| == 1 {
      assert r1[1..] == [] == r2[1..];
      assert a == s == b;
    } else {
      WordPrefix(a, b, s);
      assert a == s[..|a|] == b;
      var rest := s[|a|..];
      assert Concat(r1[1..]) == rest == Concat(r2[1..]);
      assert forall k :: 0 <= k < |r1| - 2 ==> r1[1..][k] == r1[k + 1];
      assert forall k :: 0 <= k < |r2| - 2 ==> r2[1..][k] == r2[k + 1];
      SplitUnique(r1[1..], r2[1..], rest);
    }
  }

  /** A split has a single piece exactly when the string holds no space
      before its final character. */
  lemma SingleIff(r: seq<string>, s: string)
    requires IsSplitOf(r, s)
    ensures |r| == 1 <==> SpaceFreeBeforeLast(s)
  {
    assert r == [r[0]] + r[1..];
    assert s == r[0] + Concat(r[1..]);
    if |r| > 1 {
      TailNotEmpty(r);
      assert s[|r[0]| - 1] == ' ';
    } else {
      assert r[1..] == [];
    }
  }

  /** Two words that both begin `s` are the same word. */
  lemma WordPrefix(a: string, b: string, s: string)
    requires IsWord(a) && IsWord(b)
    requires |a| <= |s| && |b| <= |s| && a == s[..|a|] && b == s[..|b|]
    ensures a == b
  {
    var m := if |a| < |b| then |a| else |b|;
    assert a[m - 1] == s[m - 1] == b[m - 1] == ' ';
  }

  /** With more than one piece, the pieces after the first are not all empty. */
  lemma TailNotEmpty(r: seq<string>)
    requires |r| > 1 && r[|r| - 1] != ""
    ensures Concat(r[1..]) != ""
  {
    ConcatLast(r[1..]);
  }

  /** The last piece of a non-empty string is not empty. */
  lemma LastPieceNotEmpty(r: seq<string>, s: string)
    requires IsSplitOf(r, s) && s != ""
    ensures r[|r| - 1] != ""
  {
    if |r| == 1 {
      assert r[1..] == [];
      assert s == r[0] + Concat(r[1..]);
    }
  }

  /** The number of spaces at positions other than the last. */
  function SpacesBeforeLast(s: string): nat {
    if s == "" then 0 else multiset(s[..|s| - 1])[' ']
  }

  lemma NoSpaceCount(w: string)
    requires forall i :: 0 <= i < |w| ==> w[i] != ' '
    ensures multiset(w)[' '] == 0
  {
    assert ' ' !in w;
  }

  /** One word is cut off per space that is not the final character. */
  lemma {:induction false} SplitCount(r: seq<string>, s: string)
    requires IsSplitOf(r, s)
    ensures |r| - 1 == SpacesBeforeLast(s)
    decreases |r|
  {
    if |r| == 1 {
      assert s == r[0] + Concat(r[1..]) == r[0];
      if s != "" {
        NoSpaceCount(s[..|s| - 1]);
      }
    } else {
      var w, t := r[0], Concat(r[1..]);
      assert r == [w] + r[1..];
      assert s == w + t;
      TailNotEmpty(r);
      assert forall k :: 0 <= k < |r| - 2 ==> r[1..][k] == r[k + 1];
      assert IsSplitOf(r[1..], t);
      SplitCount(r[1..], t);
      assert s[..|s| - 1] == w[..|w| - 1] + [' '] + t[..|t| - 1];
      NoSpaceCount(w[..|w| - 1]);
    }
  }

  /** What the handler relies on: splitting more text after the held piece
      re-cuts only that piece, and the words already cut stay as they were. */
  lemma SplitExtend(s: string, t: string, done: seq<string>, held: string)
    requires SplitAfterSpaces(s) == done + [held]
    ensures SplitAfterSpaces(s + t) == done + SplitAfterSpaces(held + t)
  {
    var p := done + [held];
    var q := SplitAfterSpaces(held + t);
    var r := done + q;
    SplitIsSplit(s);
    SplitIsSplit(held + t);
    SplitIsSplit(s + t);
    ConcatAppend(done, [held]);
    ConcatAppend(done, q);
    assert Concat([held]) == held;
    assert Concat(r) == s + t;
    assert forall k :: 0 <= k < |r| - 1 ==> IsWord(r[k]) by {
      forall k | 0 <= k < |r| - 1 ensures IsWord(r[k]) {
        if k < |done| {
          assert r[k] == p[k];
        } else {
          assert r[k] == q[k - |done|];
        }
      }
    }
    assert r[|r| - 1] == q[|q| - 1];
    assert |q| == 1 && |done| > 0 ==> held != "" && q[0] == held + t;
    assert IsSplitOf(r, s + t);
    SplitUnique(r, SplitAfterSpaces(s + t), s + t);
  }

  /** A string is a single piece exactly when it holds no space before its
      final character, i.e. the split emits no word. */
  lemma SplitSingle(s: string)
    ensures |SplitAfterSpaces(s)| == 1 <==> SpaceFreeBeforeLast(s)
    ensures SpaceFreeBeforeLast(s) ==> SplitAfterSpaces(s) == [s]
  {
    var p := SplitAfterSpaces(s);
    SplitIsSplit(s);
    SplitCount(p, s);
    if SpaceFreeBeforeLast(s) {
      assert Concat([s]) == s;
      assert IsSplitOf([s], s);
      SplitUnique([s], p, s);
    } else {
      var i :| 0 <= i < |s| - 1 && s[i] == ' ';
      assert s[..|s| - 1][i] == ' ';
      assert ' ' in multiset(s[..|s| - 1]);
    }
  }

  /** A held word ending in a space is released by the next fragment,
      even one that holds no space. */
  lemma HeldWordReleased(w: string, t: string)
    requires IsWord(w) && t != ""
    requires forall i :: 0 <= i < |t| ==> t[i] != ' '
    ensures SplitAfterSpaces(w + t) == [w, t]
  {
    assert Concat([w, t]) == w + t by {
      assert [w, t][1..] == [t];
      assert Concat([t]) == t;
    }
    assert IsSplitOf([w, t], w + t);
    SplitIsSplit(w + t);
    SplitUnique([w, t], SplitAfterSpaces(w + t), w + t);
  }

  /** The fragments "Hel", "lo ", "wor", "ld": nothing is cut until the
      third fragment, which releases "Hello "; "world" is held. */
  lemma HelloWorldExample()
    ensures SplitAfterSpaces("Hel") == ["Hel"]
    ensures SplitAfterSpaces("Hel" + "lo ") == ["Hello "]
    ensures SplitAfterSpaces("Hello " + "wor") == ["Hello ", "wor"]
    ensures SplitAfterSpaces("wor" + "ld") == ["world"]
  {
    SplitSingle("Hel");
    assert "Hel" + "lo " == "Hello ";
    SplitSingle("Hello ");
    HeldWordReleased("Hello ", "wor");
    assert "wor" + "ld" == "world";
    SplitSingle("world");
  }

  /** "a b c " is cut after its first two spaces only: the final space is
      not a cut, so "c " is held. */
  lemma TrailingSpaceExample()
    ensures SplitAfterSpaces("a b c ") == ["a ", "b ", "c "]
  {
    var r := ["a ", "b ", "c "];
    assert r[1..] == ["b ", "c "] && r[1..][1..] == ["c "] && r[1..][1..][1..] == [];
    assert Concat(r) == "a b c ";
    assert IsSplitOf(r, "a b c ");
    SplitIsSplit("a b c ");
    SplitUnique(r, SplitAfterSpaces("a b c "), "a b c ");
  }
}
