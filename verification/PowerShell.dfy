/** The text operations of PowerShell that the installer relies on. */
module PowerShell {
  /** Case folding of `ToLowerInvariant` and of `-eq`, for the letters registry data is made of. */
  function Lower(c: char): char {
    if 'A' <= c <= 'Z' then (c as int + 32) as char else c
  }

  function Fold(s: string): (t: string)
    ensures |t| == |s|
    ensures forall i | 0 <= i < |s| :: t[i] == Lower(s[i])
  {
    seq(|s|, i requires 0 <= i < |s| => Lower(s[i]))
  }

  /** The letters from A to Z fold to those from a to z, in their order; nothing else changes. */
  lemma LettersFold(k: nat)
    requires k < 26
    ensures Lower("ABCDEFGHIJKLMNOPQRSTUVWXYZ"[k]) == "abcdefghijklmnopqrstuvwxyz"[k]
    ensures forall c: char | c < 'A' || 'Z' < c :: Lower(c) == c
  {
  }

  /** `-eq` on strings. */
  predicate EqNoCase(a: string, b: string) {
    Fold(a) == Fold(b)
  }

  /** `-split`: always at least one part. */
  function Split(s: string, sep: char): (parts: seq<string>)
    ensures |parts| >= 1
    ensures forall i | 0 <= i < |parts| :: sep !in parts[i]
  {
    if s == "" then [""]
    else
      var rest := Split(s[1..], sep);
      if s[0] == sep then [""] + rest else [[s[0]] + rest[0]] + rest[1..]
  }

  /** `-join`. */
  function Join(parts: seq<string>, sep: char): string {
    if |parts| == 0 then "" else if |parts| == 1 then parts[0] else parts[0] + [sep] + Join(parts[1..], sep)
  }

  lemma {:induction false} JoinSplit(s: string, sep: char)
    ensures Join(Split(s, sep), sep) == s
  {
    if s != "" {
      var rest := Split(s[1..], sep);
      JoinSplit(s[1..], sep);
      assert s == [s[0]] + s[1..];
      if s[0] == sep {
        assert Split(s, sep)[1..] == rest;
      } else {
        var first := [s[0]] + rest[0];
        assert ([first] + rest[1..])[1..] == rest[1..];
      }
    }
  }

  lemma {:induction false} SplitPart(part: string, sep: char, rest: string)
    requires sep !in part
    ensures Split(part, sep) == [part]
    ensures Split(part + [sep] + rest, sep) == [part] + Split(rest, sep)
  {
    if part == "" {
      assert part + [sep] + rest == [sep] + rest;
      assert ([sep] + rest)[1..] == rest;
    } else {
      SplitPart(part[1..], sep, rest);
      var whole := part + [sep] + rest;
      assert whole[1..] == part[1..] + [sep] + rest;
      assert part == [part[0]] + part[1..];
    }
  }

  /** Splitting is inverse to joining, for parts that do not hold the separator. */
  lemma {:induction false} SplitJoin(parts: seq<string>, sep: char)
    requires |parts| >= 1
    requires forall i | 0 <= i < |parts| :: sep !in parts[i]
    ensures Split(Join(parts, sep), sep) == parts
  {
    if |parts| == 1 {
      SplitPart(parts[0], sep, "");
    } else {
      SplitJoin(parts[1..], sep);
      SplitPart(parts[0], sep, Join(parts[1..], sep));
    }
  }

  /** `Where-Object { $_ -ne "" }`. */
  function NonEmpty(parts: seq<string>): (r: seq<string>)
    ensures forall i | 0 <= i < |r| :: r[i] != "" && r[i] in parts
  {
    if parts == [] then []
    else if parts[0] == "" then NonEmpty(parts[1..])
    else [parts[0]] + NonEmpty(parts[1..])
  }

  lemma {:induction false} AllNonEmpty(parts: seq<string>)
    requires forall i | 0 <= i < |parts| :: parts[i] != ""
    ensures NonEmpty(parts) == parts
  {
    if parts != [] {
      AllNonEmpty(parts[1..]);
    }
  }

  /** Filtering looks at each part by itself and keeps the order. */
  lemma {:induction false} NonEmptyOfJoined(xs: seq<string>, ys: seq<string>)
    ensures NonEmpty(xs + ys) == NonEmpty(xs) + NonEmpty(ys)
    ensures forall x :: NonEmpty([x]) == if x == "" then [] else [x]
  {
    if xs == [] {
      assert xs + ys == ys;
    } else {
      assert (xs + ys)[1..] == xs[1..] + ys;
      NonEmptyOfJoined(xs[1..], ys);
    }
  }

  lemma {:induction false} NonEmptyIsShorter(parts: seq<string>)
    ensures |NonEmpty(parts)| <= |parts|
    ensures |NonEmpty(parts)| == |parts| ==> NonEmpty(parts) == parts
  {
    if parts != [] {
      NonEmptyIsShorter(parts[1..]);
    }
  }

  /** Texts that differ in case only split alike, for a separator that has no case. */
  lemma {:induction false} SplitNoCase(a: string, b: string, sep: char)
    requires EqNoCase(a, b) && (forall c: char :: Lower(c) == sep <==> c == sep)
    ensures |Split(a, sep)| == |Split(b, sep)|
    ensures forall i | 0 <= i < |Split(a, sep)| :: EqNoCase(Split(a, sep)[i], Split(b, sep)[i])
  {
    hide Fold;
    assert |a| == |Fold(a)| == |Fold(b)| == |b|;
    if a != "" {
      assert Fold(a)[0] == Lower(a[0]) && Fold(b)[0] == Lower(b[0]);
      assert Fold(a[1..]) == Fold(a)[1..] && Fold(b[1..]) == Fold(b)[1..];
      SplitNoCase(a[1..], b[1..], sep);
      FoldOfCons(a[0], Split(a[1..], sep)[0]);
      FoldOfCons(b[0], Split(b[1..], sep)[0]);
    }
  }

  lemma FoldOfCons(c: char, s: string)
    ensures Fold([c] + s) == [Lower(c)] + Fold(s)
  {
  }

  /** `TrimStart`. */
  function TrimStart(s: string, c: char): string {
    if s != "" && s[0] == c then TrimStart(s[1..], c) else s
  }

  /** Exactly the leading characters go. */
  lemma {:induction false} TrimStartMeans(s: string, c: char, n: nat)
    requires n <= |s| && (forall i | 0 <= i < n :: s[i] == c) && (n < |s| ==> s[n] != c)
    ensures TrimStart(s, c) == s[n..]
    decreases n
  {
    if n > 0 {
      TrimStartMeans(s[1..], c, n - 1);
      assert s[1..][n - 1..] == s[n..];
    } else {
      assert s[0..] == s;
    }
  }

  /** A text in front that does not hold the separator belongs to the first part. */
  lemma {:induction false} SplitBehind(front: string, s: string, sep: char)
    requires sep !in front
    ensures Split(front + s, sep) == [front + Split(s, sep)[0]] + Split(s, sep)[1..]
  {
    if front == "" {
      assert front + s == s && front + Split(s, sep)[0] == Split(s, sep)[0];
    } else {
      SplitBehind(front[1..], s, sep);
      assert (front + s)[1..] == front[1..] + s && (front + s)[0] == front[0];
      var first, others := Split(s, sep)[0], Split(s, sep)[1..];
      var rest := [front[1..] + first] + others;
      assert rest[0] == front[1..] + first && rest[1..] == others;
      assert [front[0]] + (front[1..] + first) == front + first;
    }
  }

  /** Names of different lengths, or with a different letter somewhere, are different names. */
  lemma Differ(a: string, b: string, at: nat)
    requires |a| != |b| || (at < |a| && Lower(a[at]) != Lower(b[at]))
    ensures !EqNoCase(a, b)
  {
    if |a| == |b| {
      assert Fold(a)[at] == Lower(a[at]) && Fold(b)[at] == Lower(b[at]);
    }
  }
}
