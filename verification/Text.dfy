/** Searching, splitting and trimming of byte strings (`src/string_helper.inl`,
    `src/string_helper.cpp` and the `std::string` searches they use). */
module Text {
  import opened Bytes

  function Ascii(s: string): seq<byte> {
    seq(|s|, i requires 0 <= i < |s| => ToByte(s[i] as nat))
  }

  lemma AsciiJoin(s: string, t: string)
    ensures Ascii(s + t) == Ascii(s) + Ascii(t)
  {
  }

  /** Bytes are told apart by the numbers they are. */
  lemma SameBytes(a: seq<byte>, b: seq<byte>)
    requires |a| == |b| && forall i :: 0 <= i < |a| ==> Value(a[i]) == Value(b[i])
    ensures a == b
  {
    forall i | 0 <= i < |a| ensures a[i] == b[i] {
      SameValue(a[i], b[i]);
    }
  }

  lemma SameValue(a: byte, b: byte)
    requires Value(a) == Value(b)
    ensures a == b
  {
    ValueIsNumber(a);
    ValueIsNumber(b);
    SameNumber(a, b);
  }

  /** The bytes of a text are the numbers of its characters. */
  lemma AsciiNumbers(s: string)
    ensures |Ascii(s)| == |s| && forall i :: 0 <= i < |s| ==> Value(Ascii(s)[i]) == s[i] as nat % 256
  {
  }

  lemma AsciiIs(s: string, b: seq<byte>)
    requires |s| == |b| && forall i :: 0 <= i < |s| ==> Value(b[i]) == s[i] as nat
    ensures Ascii(s) == b
  {
    forall i | 0 <= i < |s| ensures Value(Ascii(s)[i]) == Value(b[i]) {
      Small(s[i] as nat, Value(b[i]));
    }
    SameBytes(Ascii(s), b);
  }

  lemma Small(n: nat, v: nat)
    requires n == v < 256
    ensures n % 256 == v
  {
  }

  const CR: byte := 13
  const LF: byte := 10
  const SPACE: byte := 32
  const COLON: byte := 58

  const EOL: seq<byte> := [CR, LF]

  predicate OccursAt(s: seq<byte>, d: seq<byte>, i: nat) {
    i + |d| <= |s| && s[i..i + |d|] == d
  }

  /** The first occurrence of `d` in `s` at or after `from`, or -1 (`std::string::find`). */
  function Find(s: seq<byte>, d: seq<byte>, from: nat): (i: int)
    ensures i == -1 || (from <= i && i + |d| <= |s|)
    decreases |s| - from
  {
    if |s| < from then -1 else if OccursAt(s, d, from) then from else Find(s, d, from + 1)
  }

  /** It is the first one, and -1 means that there is none. */
  lemma {:induction false} FindFirst(s: seq<byte>, d: seq<byte>, from: nat)
    ensures var i := Find(s, d, from);
            && (i != -1 ==> OccursAt(s, d, i))
            && (forall j :: from <= j && (i == -1 || j < i) ==> !OccursAt(s, d, j))
    decreases |s| - from
  {
    if |s| < from || OccursAt(s, d, from) {
    } else {
      FindFirst(s, d, from + 1);
    }
  }

  /** The search result is pinned down by being the first occurrence. */
  lemma FindIs(s: seq<byte>, d: seq<byte>, from: nat, i: nat)
    requires from <= i && OccursAt(s, d, i)
    requires forall j :: from <= j < i ==> !OccursAt(s, d, j)
    ensures Find(s, d, from) == i
  {
    FindFirst(s, d, from);
  }

  lemma OccursStable(s: seq<byte>, more: seq<byte>, d: seq<byte>, j: nat)
    requires j + |d| <= |s|
    ensures OccursAt(s + more, d, j) <==> OccursAt(s, d, j)
  {
    assert (s + more)[j..j + |d|] == s[j..j + |d|];
  }

  lemma OccursInside(s: seq<byte>, d: seq<byte>, a: nat, b: nat, j: nat)
    requires a <= b <= |s| && OccursAt(s[a..b], d, j)
    ensures a + j + |d| <= b && OccursAt(s, d, a + j)
  {
    var t, e := s[a..b], j + |d|;
    assert |t| == b - a && e <= |t|;
    assert forall k :: j <= k < e ==> t[k] == s[a + k];
    assert t[j..e] == s[a + j..a + e];
  }

  /** An occurrence found stays the first one when the text grows. */
  lemma FindStable(s: seq<byte>, more: seq<byte>, d: seq<byte>, from: nat)
    requires Find(s, d, from) != -1
    ensures Find(s + more, d, from) == Find(s, d, from)
  {
    var i := Find(s, d, from);
    FindFirst(s, d, from);
    OccursStable(s, more, d, i);
    forall j | from <= j < i ensures !OccursAt(s + more, d, j) {
      OccursStable(s, more, d, j);
    }
    FindIs(s + more, d, from, i);
  }

  // ---------- splitStr ----------

  /** The pieces of `s` from `pre` on; an empty last piece is left out. */
  function Pieces(s: seq<byte>, d: seq<byte>, pre: nat): (ps: seq<seq<byte>>)
    requires d != [] && pre <= |s|
    decreases |s| - pre
  {
    var i := Find(s, d, pre);
    if i == -1 then if pre < |s| then [s[pre..]] else []
    else [s[pre..i]] + Pieces(s, d, i + |d|)
  }

  lemma PiecesAt(s: seq<byte>, d: seq<byte>, pre: nat, i: nat)
    requires d != [] && pre <= |s| && Find(s, d, pre) == i
    ensures i + |d| <= |s| && Pieces(s, d, pre) == [s[pre..i]] + Pieces(s, d, i + |d|)
  {
  }

  function Split(s: seq<byte>, d: seq<byte>): seq<seq<byte>>
    requires d != []
  {
    Pieces(s, d, 0)
  }

  lemma NextPiece(r: seq<seq<byte>>, s: seq<byte>, d: seq<byte>, pre: nat, i: nat)
    requires d != [] && pre <= |s| && Find(s, d, pre) == i
    ensures i + |d| <= |s| && |Pieces(s, d, pre)| == 1 + |Pieces(s, d, i + |d|)|
    ensures r + Pieces(s, d, pre) == r + [s[pre..i]] + Pieces(s, d, i + |d|)
  {
    PiecesAt(s, d, pre, i);
    Associates(r, [s[pre..i]], Pieces(s, d, i + |d|));
  }

  lemma LastPiece(r: seq<seq<byte>>, s: seq<byte>, d: seq<byte>, pre: nat)
    requires d != [] && pre <= |s| && Find(s, d, pre) == -1
    ensures |Pieces(s, d, pre)| == if pre < |s| then 1 else 0
    ensures r + Pieces(s, d, pre) == if pre < |s| then r + [s[pre..]] else r
  {
  }

  /** The argument of `splitStr`: a null pointer or a string. */
  datatype Delimiter = NoDelimiter | Delimiter(bytes: seq<byte>)

  function SplitBy(s: seq<byte>, d: Delimiter): seq<seq<byte>>
    requires s == [] || d.NoDelimiter? || d.bytes != []
  {
    if s == [] then [] else if d.NoDelimiter? then [s] else Split(s, d.bytes)
  }

  lemma SplitByText(s: seq<byte>, d: seq<byte>)
    requires d != []
    ensures SplitBy(s, Delimiter(d)) == Split(s, d)
  {
  }

  /** `splitStr`; with an empty delimiter in front of text its loop never ends. */
  method SplitStr(list: seq<seq<byte>>, str: seq<byte>, delimiter: Delimiter)
    returns (r: seq<seq<byte>>, count: nat)
    requires str == [] || delimiter.NoDelimiter? || delimiter.bytes != []
    ensures r == list + SplitBy(str, delimiter) && count == |SplitBy(str, delimiter)|
  {
    r, count := list, 0;
    if str == [] {
      return;
    }
    if delimiter.NoDelimiter? {
      return list + [str], 1;
    }
    SplitByText(str, delimiter.bytes);
    var delim := delimiter.bytes;
    ghost var all := Split(str, delim);
    var pos := 0;
    while pos != -1
      invariant -1 <= pos <= |str|
      invariant list + all == if pos == -1 then r else r + Pieces(str, delim, pos)
      invariant |all| == if pos == -1 then count else count + |Pieces(str, delim, pos)|
      decreases if pos == -1 then 0 else 1 + |str| - pos
    {
      r, count, pos := TakePiece(r, count, str, delim, pos);
    }
  }

  /** One round of the loop; the position after the delimiter, or -1 when the loop ends. */
  method TakePiece(list: seq<seq<byte>>, n: nat, str: seq<byte>, delim: seq<byte>, prepos: nat)
    returns (r: seq<seq<byte>>, count: nat, next: int)
    requires delim != [] && prepos <= |str|
    ensures next == -1 || prepos < next <= |str|
    ensures list + Pieces(str, delim, prepos) == if next == -1 then r else r + Pieces(str, delim, next)
    ensures n + |Pieces(str, delim, prepos)| == if next == -1 then count else count + |Pieces(str, delim, next)|
  {
    r, count := list, n;
    var pos := Find(str, delim, prepos);
    if pos == -1 {
      LastPiece(r, str, delim, prepos);
      if prepos < |str| {
        r := r + [str[prepos..]];
        count := count + 1;
      }
      return r, count, -1;
    }
    NextPiece(r, str, delim, prepos, pos);
    r := r + [str[prepos..pos]];
    count := count + 1;
    next := pos + |delim|;
  }

  /** The pieces with `d` between them. */
  function Join(ps: seq<seq<byte>>, d: seq<byte>): seq<byte> {
    if ps == [] then [] else if |ps| == 1 then ps[0] else ps[0] + d + Join(ps[1..], d)
  }

  lemma JoinFirst(p: seq<byte>, rest: seq<seq<byte>>, d: seq<byte>)
    ensures Join([p] + rest, d) == if rest == [] then p else p + d + Join(rest, d)
    ensures rest == [] ==> Join(rest, d) == []
  {
    assert ([p] + rest)[1..] == rest;
  }

  lemma CutAt(s: seq<byte>, d: seq<byte>, pre: nat, i: nat)
    requires pre <= i && OccursAt(s, d, i)
    ensures s[pre..] == s[pre..i] + d + s[i + |d|..]
  {
  }

  lemma TailJoin(p: seq<byte>, d: seq<byte>, tail: seq<byte>, rest: seq<seq<byte>>)
    requires tail == Join(rest, d) || tail == Join(rest, d) + d
    requires rest == [] ==> tail == []
    ensures p + d + tail == Join([p] + rest, d) || p + d + tail == Join([p] + rest, d) + d
  {
    JoinFirst(p, rest, d);
    Associates(p + d, Join(rest, d), d);
    assert p + d + [] == p + d;
  }

  /** Splitting loses nothing but, possibly, one trailing delimiter. */
  lemma {:induction false} PiecesJoin(s: seq<byte>, d: seq<byte>, pre: nat)
    requires d != [] && pre <= |s|
    ensures s[pre..] == Join(Pieces(s, d, pre), d) || s[pre..] == Join(Pieces(s, d, pre), d) + d
    ensures Pieces(s, d, pre) == [] ==> pre == |s|
    decreases |s| - pre
  {
    var i := Find(s, d, pre);
    if i == -1 {
      LastPiece([], s, d, pre);
    } else {
      PiecesJoin(s, d, i + |d|);
      FindFirst(s, d, pre);
      CutAt(s, d, pre, i);
      PiecesAt(s, d, pre, i);
      TailJoin(s[pre..i], d, s[i + |d|..], Pieces(s, d, i + |d|));
    }
  }

  /** No piece contains the delimiter. */
  lemma {:induction false} PiecesClean(s: seq<byte>, d: seq<byte>, pre: nat)
    requires d != [] && pre <= |s|
    ensures forall p, j :: p in Pieces(s, d, pre) && 0 <= j ==> !OccursAt(p, d, j)
    decreases |s| - pre
  {
    var i := Find(s, d, pre);
    var end := if i == -1 then |s| else i;
    FindFirst(s, d, pre);
    forall j | 0 <= j && OccursAt(s[pre..end], d, j) ensures false {
      OccursInside(s, d, pre, end, j);
    }
    if i == -1 {
      assert forall p :: p in Pieces(s, d, pre) ==> p == s[pre..end];
    } else {
      PiecesClean(s, d, i + |d|);
      assert forall p :: p in Pieces(s, d, pre) ==> p == s[pre..end] || p in Pieces(s, d, i + |d|);
    }
  }

  lemma FindNone(s: seq<byte>, d: seq<byte>, from: nat)
    requires forall j :: from <= j ==> !OccursAt(s, d, j)
    ensures Find(s, d, from) == -1
  {
    FindFirst(s, d, from);
  }

  lemma NotAt(s: seq<byte>, d: seq<byte>, j: nat)
    requires d != [] && (j < |s| ==> s[j] != d[0])
    ensures !OccursAt(s, d, j)
  {
    if j + |d| <= |s| {
      assert s[j..j + |d|][0] == s[j];
    }
  }

  /** A stretch without the first byte of the delimiter holds no occurrence. */
  lemma FindAbsent(pre: seq<byte>, p: seq<byte>, d: seq<byte>)
    requires d != [] && d[0] !in p
    ensures Find(pre + p, d, |pre|) == -1
  {
    var s := pre + p;
    forall j | |pre| <= j ensures !OccursAt(s, d, j) {
      assert j < |s| ==> s[j] == p[j - |pre|];
      NotAt(s, d, j);
    }
    FindNone(s, d, |pre|);
  }

  lemma FindPast(pre: seq<byte>, p: seq<byte>, d: seq<byte>, rest: seq<byte>)
    requires d != [] && d[0] !in p
    ensures Find(pre + p + d + rest, d, |pre|) == |pre| + |p|
  {
    var s := pre + p + d + rest;
    var i := |pre| + |p|;
    assert s[i..i + |d|] == d;
    forall j | |pre| <= j < i ensures !OccursAt(s, d, j) {
      assert s[j] == p[j - |pre|];
      NotAt(s, d, j);
    }
    FindIs(s, d, |pre|, i);
  }

  lemma SliceMiddle(a: seq<byte>, b: seq<byte>, c: seq<byte>, d: seq<byte>)
    ensures (a + b + c + d)[|a|..|a| + |b|] == b && |a + b + c| == |a| + |b| + |c|
  {
  }

  /** The piece `p` at `pre`, up to a delimiter found at `i`. */
  lemma PiecesStep(s: seq<byte>, d: seq<byte>, pre: nat, p: seq<byte>, i: nat, next: nat)
    requires d != [] && pre <= |s| && Find(s, d, pre) == i && next == i + |d|
    requires s[pre..i] == p
    ensures next <= |s| && Pieces(s, d, pre) == [p] + Pieces(s, d, next)
  {
  }

  lemma PiecesEnd(s: seq<byte>, pre: seq<byte>, p: seq<byte>, d: seq<byte>)
    requires s == pre + p && d != [] && d[0] !in p && p != []
    ensures Pieces(s, d, |pre|) == [p]
  {
    FindAbsent(pre, p, d);
    assert s[|pre|..] == p;
  }

  lemma FirstPiece(s: seq<byte>, pre: seq<byte>, p: seq<byte>, d: seq<byte>, rest: seq<byte>)
    requires s == pre + p + d + rest && d != [] && d[0] !in p
    ensures Pieces(s, d, |pre|) == [p] + Pieces(s, d, |pre + p + d|)
  {
    FindPast(pre, p, d, rest);
    SliceMiddle(pre, p, d, rest);
    PiecesStep(s, d, |pre|, p, |pre| + |p|, |pre + p + d|);
  }

  lemma OpenJoin(pre: seq<byte>, ps: seq<seq<byte>>, d: seq<byte>)
    requires 2 <= |ps|
    ensures pre + Join(ps, d) == pre + ps[0] + d + Join(ps[1..], d)
  {
    Associates(pre, ps[0], d);
    Associates(pre, ps[0] + d, Join(ps[1..], d));
  }

  lemma {:induction false} PiecesOfJoin(s: seq<byte>, pre: seq<byte>, ps: seq<seq<byte>>, d: seq<byte>)
    requires s == pre + Join(ps, d) && d != [] && ps != [] && ps[|ps| - 1] != []
    requires forall p :: p in ps ==> d[0] !in p
    ensures Pieces(s, d, |pre|) == ps
    decreases ps
  {
    var p := ps[0];
    if |ps| == 1 {
      PiecesEnd(s, pre, p, d);
    } else {
      var rest := Join(ps[1..], d);
      OpenJoin(pre, ps, d);
      FirstPiece(s, pre, p, d, rest);
      PiecesOfJoin(s, pre + p + d, ps[1..], d);
      assert ps == [p] + ps[1..];
    }
  }

  /** Splitting undoes joining. */
  lemma SplitJoin(ps: seq<seq<byte>>, d: seq<byte>)
    requires d != [] && ps != [] && ps[|ps| - 1] != []
    requires forall p :: p in ps ==> d[0] !in p
    ensures Split(Join(ps, d), d) == ps
  {
    assert [] + Join(ps, d) == Join(ps, d);
    PiecesOfJoin(Join(ps, d), [], ps, d);
  }

  // ---------- trim ----------

  function TrimStart(s: seq<byte>): seq<byte> {
    if s != [] && s[0] == SPACE then TrimStart(s[1..]) else s
  }

  function TrimEnd(s: seq<byte>): seq<byte> {
    if s != [] && s[|s| - 1] == SPACE then TrimEnd(s[..|s| - 1]) else s
  }

  /** `trim`: both ends lose their spaces; a string of spaces becomes empty. */
  function Trim(s: seq<byte>): seq<byte> {
    TrimEnd(TrimStart(s))
  }

  predicate Trimmed(s: seq<byte>) {
    s != [] ==> s[0] != SPACE && s[|s| - 1] != SPACE
  }

  lemma {:induction false} TrimStartRuns(s: seq<byte>)
    ensures exists k :: 0 <= k <= |s| && TrimStart(s) == s[k..]
    ensures TrimStart(s) != [] ==> TrimStart(s)[0] != SPACE
  {
    if s != [] && s[0] == SPACE {
      TrimStartRuns(s[1..]);
      var k :| 0 <= k <= |s[1..]| && TrimStart(s[1..]) == s[1..][k..];
      assert s[1..][k..] == s[k + 1..];
    } else {
      assert s == s[0..];
    }
  }

  lemma {:induction false} TrimEndRuns(s: seq<byte>)
    ensures exists k :: 0 <= k <= |s| && TrimEnd(s) == s[..k]
    ensures TrimEnd(s) != [] ==> TrimEnd(s)[|TrimEnd(s)| - 1] != SPACE
  {
    if s != [] && s[|s| - 1] == SPACE {
      var t := s[..|s| - 1];
      TrimEndRuns(t);
      var k :| 0 <= k <= |t| && TrimEnd(t) == t[..k];
      assert t[..k] == s[..k];
    } else {
      assert s == s[..|s|];
    }
  }

  /** Trimming leaves no space at either end, and nothing to trim a second time. */
  lemma TrimTrims(s: seq<byte>)
    ensures Trimmed(Trim(s)) && Trim(Trim(s)) == Trim(s)
  {
    TrimStartRuns(s);
    TrimEndRuns(TrimStart(s));
  }

  lemma TrimmedTrim(s: seq<byte>)
    requires Trimmed(s)
    ensures Trim(s) == s
  {
  }

  lemma {:induction false} StartTrimmed(i: nat, s: seq<byte>)
    requires s == [] || s[0] != SPACE
    ensures TrimStart(seq(i, _ => 32) + s) == s
    decreases i
  {
    var padded: seq<byte> := seq(i, _ => 32) + s;
    if i == 0 {
      assert padded == s;
    } else {
      assert padded[1..] == seq(i - 1, _ => 32) + s;
      StartTrimmed(i - 1, s);
    }
  }

  lemma {:induction false} EndTrimmed(s: seq<byte>, j: nat)
    requires s == [] || s[|s| - 1] != SPACE
    ensures TrimEnd(s + seq(j, _ => 32)) == s
    decreases j
  {
    var padded: seq<byte> := s + seq(j, _ => 32);
    if j == 0 {
      assert padded == s;
    } else {
      assert padded[..|padded| - 1] == s + seq(j - 1, _ => 32);
      EndTrimmed(s, j - 1);
    }
  }

  /** Any spaces around a trimmed text are taken off, and nothing else. */
  lemma TrimPadded(i: nat, s: seq<byte>, j: nat)
    requires Trimmed(s)
    ensures Trim(seq(i, _ => 32) + s + seq(j, _ => 32)) == s
  {
    var left, right: seq<byte> := seq(i, _ => 32), seq(j, _ => 32);
    if s == [] {
      assert left + s + right == seq(i + j, _ => 32) + [];
      StartTrimmed(i + j, []);
    } else {
      assert left + s + right == left + (s + right);
      StartTrimmed(i, s + right);
      EndTrimmed(s, j);
    }
  }
}
