/** fst_ctrl.c: the tokenizer that cuts a reply of the supplicant into words, in place. */
module FstCtrl {

  const NUL: char := '\0'

  /** isspace in the C locale. */
  predicate IsSpace(c: char) {
    c == ' ' || c == '\t' || c == '\n' || c == '\U{b}' || c == '\U{c}' || c == '\r'
  }

  lemma {:induction false} IsSpaceIff(c: char)
    ensures IsSpace(c) <==> c as int == 32 || 9 <= c as int <= 13
  {
  }

  /** The maximal run of non-space characters of `s` that starts at `at` has length `len`. */
  ghost predicate RunAt(s: string, at: nat, len: nat) {
    && 0 < len && at + len <= |s|
    && (forall j | at <= j < at + len :: !IsSpace(s[j]))
    && (at > 0 ==> IsSpace(s[at - 1]))
    && (at + len < |s| ==> IsSpace(s[at + len]))
  }

  /** The number of leading spaces. */
  function Blank(s: string): (n: nat)
    ensures n <= |s| && (forall j | 0 <= j < n :: IsSpace(s[j])) && (n < |s| ==> !IsSpace(s[n]))
  {
    if s == [] || !IsSpace(s[0]) then 0 else 1 + Blank(s[1..])
  }

  /** The number of leading non-spaces. */
  function Run(s: string): (n: nat)
    ensures n <= |s| && (forall j | 0 <= j < n :: !IsSpace(s[j])) && (n < |s| ==> IsSpace(s[n]))
  {
    if s == [] || IsSpace(s[0]) then 0 else 1 + Run(s[1..])
  }

  /** The words of `s`. */
  function Tokens(s: string): seq<string>
    decreases |s|
  {
    if Blank(s) == |s| then []
    else
      var t := s[Blank(s)..];
      assert t[0] == s[Blank(s)];
      [t[..Run(t)]] + Tokens(t[Run(t)..])
  }

  lemma {:induction false} BlankIs(s: string, n: nat)
    requires n <= |s| && (forall j | 0 <= j < n :: IsSpace(s[j])) && (n < |s| ==> !IsSpace(s[n]))
    ensures Blank(s) == n
  {
  }

  lemma {:induction false} RunIs(s: string, n: nat)
    requires n <= |s| && (forall j | 0 <= j < n :: !IsSpace(s[j])) && (n < |s| ==> IsSpace(s[n]))
    ensures Run(s) == n
  {
  }

  predicate Word(t: string) {
    t != [] && forall c | c in t :: !IsSpace(c)
  }

  function Join(ts: seq<string>): string {
    if ts == [] then [] else if |ts| == 1 then ts[0] else ts[0] + " " + Join(ts[1..])
  }

  lemma {:induction false} TokensOfSpaced(s: string)
    ensures Tokens(" " + s) == Tokens(s)
  {
    var s' := " " + s;
    assert s'[1..] == s;
    assert Blank(s') == 1 + Blank(s);
    assert s'[Blank(s')..] == s[Blank(s)..];
  }

  /** A word, alone or before a space, is cut off first. */
  lemma {:induction false} CutFirst(t: string, rest: string)
    requires Word(t) && (rest == [] || IsSpace(rest[0]))
    ensures Tokens(t + rest) == [t] + Tokens(rest)
  {
    hide IsSpace;
    var s := t + rest;
    assert forall j | 0 <= j < |t| :: s[j] == t[j] && t[j] in t;
    BlankIs(s, 0);
    RunIs(s, |t|);
    assert s[0..] == s && s[..|t|] == t && s[|t|..] == rest;
  }

  /** Joining words and cutting the result gives them back. */
  lemma {:induction false} CutJoined(ts: seq<string>)
    requires forall t | t in ts :: Word(t)
    ensures Tokens(Join(ts)) == ts
    decreases |ts|
  {
    hide Tokens, Word;
    if ts == [] {
      TokensOfNothing();
    } else if |ts| == 1 {
      CutFirst(ts[0], []);
      TokensOfNothing();
      assert ts[0] + [] == ts[0] && ts == [ts[0]];
    } else {
      CutJoined(ts[1..]);
      CutFirst(ts[0], " " + Join(ts[1..]));
      TokensOfSpaced(Join(ts[1..]));
      assert ts[0] + (" " + Join(ts[1..])) == ts[0] + " " + Join(ts[1..]);
      assert ts == [ts[0]] + ts[1..];
    }
  }

  lemma {:induction false} TokensOfNothing()
    ensures Tokens([]) == []
  {
  }

  /** Words are non-empty and free of spaces. */
  lemma {:induction false} TokensAreWords(s: string)
    ensures forall t | t in Tokens(s) :: Word(t)
    decreases |s|
  {
    var t := s[Blank(s)..];
    if t != [] {
      TokensAreWords(t[Run(t)..]);
    }
  }

  /** Joining and cutting is the identity exactly on lists of words. */
  lemma {:induction false} CutJoinedIff(ts: seq<string>)
    ensures Tokens(Join(ts)) == ts <==> forall t | t in ts :: Word(t)
  {
    hide Tokens, Join, Word;
    TokensAreWords(Join(ts));
    if forall t | t in ts :: Word(t) {
      CutJoined(ts);
    }
  }

  lemma {:induction false} SkipOne(s: string)
    requires s != [] && IsSpace(s[0])
    ensures Tokens(s) == Tokens(s[1..])
  {
    hide IsSpace, Run;
    assert s[Blank(s)..] == s[1..][Blank(s[1..])..];
  }

  /** One step of the cut: at the start of a run. */
  lemma {:induction false} CutAt(s: string, p: nat, len: nat)
    requires RunAt(s, p, len)
    ensures Tokens(s[p..]) == [s[p..p + len]] + Tokens(s[p + len..])
    ensures p + len < |s| ==> Tokens(s[p + len..]) == Tokens(s[p + len + 1..])
  {
    BlankIs(s[p..], 0);
    assert s[p..][0..] == s[p..];
    RunIs(s[p..], len);
    assert s[p..][..len] == s[p..p + len] && s[p..][len..] == s[p + len..];
    if p + len < |s| {
      SkipOne(s[p + len..]);
      assert s[p + len..][1..] == s[p + len + 1..];
    }
  }

  /** Leading spaces do not matter. */
  lemma {:induction false} SkipBlanks(s: string, p: nat, q: nat)
    requires p <= q <= |s| && forall j | p <= j < q :: IsSpace(s[j])
    ensures Tokens(s[p..]) == Tokens(s[q..])
    decreases q - p
  {
    hide IsSpace, Tokens;
    if p < q {
      SkipBlanks(s, p + 1, q);
      SkipOne(s[p..]);
      assert s[p..][1..] == s[p + 1..];
    }
  }

  /** The C string that starts at `at` is `t`. */
  ghost predicate CString(s: seq<char>, at: nat, t: string) {
    at + |t| < |s| && s[at..at + |t|] == t && NUL !in t && s[at + |t|] == NUL
  }

  lemma {:induction false} LaterNul(s: seq<char>, e: nat, at: nat, t: string)
    requires CString(s, at, t) && at + |t| <= e < |s|
    ensures CString(s[e := NUL], at, t)
  {
    assert s[e := NUL][at..at + |t|] == s[at..at + |t|];
  }

  lemma {:induction false} NewCString(s: seq<char>, b: nat, e: nat)
    requires b <= e < |s| && forall j | b <= j < e :: s[j] != NUL
    ensures CString(s[e := NUL], b, s[b..e])
  {
    assert s[e := NUL][b..e] == s[b..e];
  }

  /** The starts of the maximal runs of `s` before `p`. */
  ghost predicate AllRunsBefore(s: string, p: nat, starts: seq<nat>) {
    forall b: nat, len: nat | RunAt(s, b, len) && b < p :: b in starts
  }

  lemma {:induction false} NoRunInBlanks(s: string, p: nat, q: nat, starts: seq<nat>)
    requires AllRunsBefore(s, p, starts) && p <= q <= |s| && forall j | p <= j < q :: IsSpace(s[j])
    ensures AllRunsBefore(s, q, starts)
  {
    forall b: nat, len: nat | RunAt(s, b, len) && b < q ensures b in starts {
      assert !IsSpace(s[b]);
    }
  }

  /** No other run starts inside a run or at its end. */
  lemma {:induction false} RunsDisjoint(s: string, p: nat, len: nat, b: nat, l: nat)
    requires RunAt(s, p, len) && RunAt(s, b, l) && p <= b <= p + len
    ensures b == p
  {
    hide IsSpace;
  }

  lemma {:induction false} OneRun(s: string, p: nat, len: nat, starts: seq<nat>, q: nat)
    requires AllRunsBefore(s, p, starts) && RunAt(s, p, len) && q <= p + len + 1
    ensures AllRunsBefore(s, q, starts + [p])
  {
    hide RunAt;
    assert (starts + [p])[|starts|] == p;
    forall b: nat, l: nat | RunAt(s, b, l) && b < q ensures b in starts + [p] {
      if b >= p {
        RunsDisjoint(s, p, len, b, l);
      }
    }
  }

  lemma {:induction false} NulIsNoSpace()
    ensures !IsSpace(NUL)
  {
  }

  /** The length of the run that starts at `b`. */
  ghost function RunFrom(s: string, b: nat): (len: nat)
    requires b < |s| && !IsSpace(s[b]) && (b == 0 || IsSpace(s[b - 1]))
    ensures RunAt(s, b, len) && b + len <= |s| && len > 0
    ensures (forall j | b <= j < b + len :: !IsSpace(s[j])) && (b + len < |s| ==> IsSpace(s[b + len]))
  {
    var n := Run(s[b..]);
    assert forall j | b <= j < b + n :: s[j] == s[b..][j - b];
    n
  }

  /** Passes over the word at `p` and ends it with a NUL; returns where to go on. */
  method EndWord(buf: array<char>, p: nat, ghost n: nat, ghost len: nat) returns (q: nat)
    requires p + len <= n < buf.Length && forall j | p <= j < p + len :: buf[j] != NUL && !IsSpace(buf[j])
    requires if p + len < n then IsSpace(buf[p + len]) else buf[p + len] == NUL
    modifies buf
    ensures q == if p + len < n then p + len + 1 else n
    ensures buf[..] == old(buf[..])[p + len := NUL]
  {
    hide IsSpace;
    NulIsNoSpace();
    q := p;
    while buf[q] != NUL && !IsSpace(buf[q])
      invariant p <= q <= p + len
      decreases p + len - q
    {
      q := q + 1;
    }
    if IsSpace(buf[q]) {
      buf[q] := NUL;
      q := q + 1;
    }
  }

  /** The state of the cut: `all` was the buffer, `s` its contents up to the NUL, `now` it is; the words that start
      before `p` were found at `starts`. */
  ghost predicate Progress(s: string, all: seq<char>, now: seq<char>, p: nat, starts: seq<nat>, words: seq<string>) {
    && |s| < |all| == |now| && s == all[..|s|] && all[|s|] == NUL && NUL !in s
    && p <= |s| && (p == 0 || p == |s| || IsSpace(s[p - 1])) && now[p..] == all[p..]
    && |starts| == |words| && Tokens(s) == words + Tokens(s[p..])
    && (forall k | 0 <= k < |starts| :: CString(now, starts[k], words[k]))
    && (forall k | 0 <= k < |starts| :: RunAt(s, starts[k], |words[k]|) && starts[k] + |words[k]| <= p && starts[k] < p)
    && (forall j, k | 0 <= j < k < |starts| :: starts[j] < starts[k])
    && AllRunsBefore(s, p, starts)
  }

  lemma {:induction false} ProgressStarts(s: string, all: seq<char>)
    requires |s| < |all| && s == all[..|s|] && all[|s|] == NUL && NUL !in s
    ensures Progress(s, all, all, 0, [], [])
  {
    hide Tokens;
    assert s[0..] == s;
  }

  /** Where the next word starts: the spaces before it are skipped. */
  lemma {:induction false} ProgressSkips(s: string, all: seq<char>, now: seq<char>, p: nat, starts: seq<nat>, words: seq<string>,
                                         b: nat)
    requires Progress(s, all, now, p, starts, words) && p <= b <= |s| && forall j | p <= j < b :: IsSpace(s[j])
    ensures Progress(s, all, now, b, starts, words)
  {
    hide Tokens, IsSpace, RunAt, CString, AllRunsBefore;
    SkipBlanks(s, p, b);
    NoRunInBlanks(s, p, b, starts);
    assert now[b..] == now[p..][b - p..] && all[b..] == all[p..][b - p..];
  }

  /** The word there, of length `len`, is cut off. */
  lemma {:induction false} ProgressCuts(s: string, all: seq<char>, now: seq<char>, b: nat, starts: seq<nat>, words: seq<string>,
                                        len: nat)
    requires Progress(s, all, now, b, starts, words) && RunAt(s, b, len)
    ensures var q := if b + len < |s| then b + len + 1 else |s|;
      Progress(s, all, now[b + len := NUL], q, starts + [b], words + [s[b..b + len]])
    ensures |Tokens(s)| > |words|
  {
    hide Tokens, IsSpace, RunAt, CString, AllRunsBefore;
    var e := b + len;
    RunFacts(s, b, len);
    var q, w, now' := if e < |s| then e + 1 else |s|, s[b..e], now[e := NUL];
    CutAt(s, b, len);
    TokensOfNothing();
    assert s[|s|..] == [];
    Associates(words, w, Tokens(s[q..]));
    OneRun(s, b, len, starts, q);
    assert forall j | b <= j < |all| :: now[j] == now[b..][j - b] == all[b..][j - b] == all[j];
    assert forall j | b <= j < e :: now[j] == s[j] && s[j] in s;
    NewCString(now, b, e);
    assert now[b..e] == w;
    forall k | 0 <= k < |starts| ensures CString(now', starts[k], words[k]) {
      LaterNul(now, e, starts[k], words[k]);
    }
    assert now'[q..] == all[q..];
  }

  lemma {:induction false} RunFacts(s: string, b: nat, len: nat)
    requires RunAt(s, b, len)
    ensures 0 < len && b + len <= |s| && (b + len < |s| ==> IsSpace(s[b + len]))
  {
  }

  lemma {:induction false} Associates(words: seq<string>, w: string, rest: seq<string>)
    ensures words + ([w] + rest) == words + [w] + rest
  {
  }

  lemma {:induction false} ProgressFacts(s: string, all: seq<char>, now: seq<char>, p: nat, starts: seq<nat>,
                                          words: seq<string>)
    requires Progress(s, all, now, p, starts, words)
    ensures |s| < |all| == |now| && p <= |s| && |starts| == |words| && (p == 0 || p == |s| || IsSpace(s[p - 1]))
    ensures now[|s|] == NUL && forall j | p <= j < |s| :: now[j] == s[j] && s[j] != NUL
  {
    hide IsSpace, Tokens, RunAt, AllRunsBefore, CString;
    assert forall j | p <= j < |all| :: now[j] == now[p..][j - p] == all[p..][j - p] == all[j];
    assert forall j | p <= j < |s| :: all[j] == s[j] && s[j] in s;
  }

  lemma {:induction false} Finished(s: string, all: seq<char>, now: seq<char>, starts: seq<nat>, words: seq<string>)
    requires Progress(s, all, now, |s|, starts, words)
    ensures Tokens(s) == words && |starts| == |words| && AllRunsBefore(s, |s|, starts)
    ensures forall k | 0 <= k < |starts| :: CString(now, starts[k], words[k]) && RunAt(s, starts[k], |words[k]|)
    ensures forall j, k | 0 <= j < k < |starts| :: starts[j] < starts[k]
  {
    hide IsSpace, RunAt, AllRunsBefore, CString;
    assert s[|s|..] == [];
    TokensOfNothing();
  }

  method SkipSpaces(buf: array<char>, p: nat, ghost n: nat) returns (q: nat)
    requires p <= n < buf.Length && buf[n] == NUL
    ensures p <= q <= n && !IsSpace(buf[q]) && forall j | p <= j < q :: IsSpace(buf[j])
  {
    hide IsSpace;
    NulIsNoSpace();
    q := p;
    while IsSpace(buf[q])
      invariant p <= q <= n && forall j | p <= j < q :: IsSpace(buf[j])
      decreases n - q
    {
      q := q + 1;
    }
  }

  /** parse_list. `n` is the position of the buffer's first NUL. The result is -1 exactly when there are more than
      `size` words; otherwise `res` holds, in order, the starts of all maximal runs of non-space characters, and
      each is now a C string of its own, ended within the buffer. */
  method ParseList(buf: array<char>, ghost n: nat, res: array<nat>, size: nat) returns (ret: int)
    requires n < buf.Length && buf[n] == NUL && NUL !in buf[..n]
    requires size <= res.Length
    modifies buf, res
    ensures var words := Tokens(old(buf[..n]));
      && ret == (if |words| > size then -1 else |words|)
      && (ret >= 0 ==> forall k | 0 <= k < ret ::
            CString(buf[..], res[k], words[k]) && RunAt(old(buf[..n]), res[k], |words[k]|))
    ensures ret >= 0 ==> AllRunsBefore(old(buf[..n]), n, res[..ret])
    ensures ret >= 0 ==> forall j, k | 0 <= j < k < ret :: res[j] < res[k]
  {
    hide IsSpace, Tokens, RunAt, AllRunsBefore, CString, Progress;
    ghost var s, all := buf[..n], buf[..];
    ghost var starts: seq<nat>, words: seq<string> := [], [];
    var p: nat := 0;
    ret := 0;
    ProgressStarts(s, all);
    while true
      invariant 0 <= p <= n && 0 <= ret <= size && starts == res[..ret]
      invariant Progress(s, all, buf[..], p, starts, words)
      decreases n - p
    {
      ProgressFacts(s, all, buf[..], p, starts, words);
      ghost var p0 := p;
      p := SkipSpaces(buf, p, n);
      assert forall j | p0 <= j < n :: buf[j] == s[j];
      ProgressSkips(s, all, buf[..], p0, starts, words, p);
      ProgressFacts(s, all, buf[..], p, starts, words);
      if buf[p] == NUL {
        Finished(s, all, buf[..], starts, words);
        return;
      }
      ghost var len := RunFrom(s, p);
      ProgressCuts(s, all, buf[..], p, starts, words, len);
      if ret == size {
        return -1;
      }
      starts, words := starts + [p], words + [s[p..p + len]];
      res[ret] := p;
      ret := ret + 1;
      p := EndWord(buf, p, n, len);
    }
  }

  const LIST_SIZE: nat := 256

  predicate IsFailure(s: string) {
    |s| >= 4 && s[..4] == "FAIL"
  }

  /** parse_list_proc up to the call of the item parser on each string of `list`. */
  method ParseListProc(buf: array<char>, ghost n: nat) returns (ret: int, list: array<nat>)
    requires n < buf.Length && buf[n] == NUL && NUL !in buf[..n]
    modifies buf
    ensures var s := old(buf[..n]); var words := Tokens(s);
      && ret == (if IsFailure(s) || |words| > LIST_SIZE then -1 else |words|)
      && (ret >= 0 ==> ret <= list.Length &&
                       forall k | 0 <= k < ret :: Word(words[k]) && CString(buf[..], list[k], words[k]))
  {
    hide Tokens, Word, CString, RunAt, AllRunsBefore;
    list := new nat[LIST_SIZE];
    ghost var s := buf[..n];
    // strncmp stops at the first difference, and at the NUL of a shorter reply.
    var k := 0;
    while k < 4 && buf[k] == "FAIL"[k]
      invariant 0 <= k <= 4 && k <= n && s[..k] == "FAIL"[..k]
    {
      assert s[..k + 1] == s[..k] + [s[k]] && "FAIL"[..k + 1] == "FAIL"[..k] + ["FAIL"[k]];
      k := k + 1;
    }
    if k == 4 {
      return -1, list;
    }
    assert n >= 4 ==> s[..4][k] != "FAIL"[k];
    ret := ParseList(buf, n, list, LIST_SIZE);
    TokensAreWords(s);
  }
}
