/** The byte-at-a-time boundary match restarts without a failure table. Why that is right for the
    patterns of the program, what it writes, and what size it records. */
module Boundary {
  import opened Wrappers
  import opened Streams
  import opened UrlCodec
  import opened HeaderText
  import opened Multipart

  predicate OccursAt(p: string, s: string, i: nat) {
    i + |p| <= |s| && s[i..i + |p|] == p
  }

  /** `k` is where `p` occurs in `s` first. */
  ghost predicate FirstAt(p: string, s: string, k: nat) {
    OccursAt(p, s, k) && forall i :: 0 <= i < k ==> !OccursAt(p, s, i)
  }

  /** The first byte of the pattern occurs nowhere else in it. */
  predicate UniqueStart(p: string) {
    |p| > 1 && forall j :: 0 < j < |p| ==> p[j] != p[0]
  }

  /** The `c` bytes of `s` before position `j` are the first `c` bytes of `p`. */
  predicate PartialBefore(p: string, s: string, j: nat, c: nat) {
    1 <= c < |p| && c <= j <= |s| && s[j - c..j] == p[..c]
  }

  /** A partial match of `p` fails at position `j` of `s` on a byte that starts `p` again. */
  ghost predicate IsRestart(p: string, s: string, j: nat) {
    j < |s| && p != "" && s[j] == p[0] && exists c: nat :: PartialBefore(p, s, j, c)
  }

  ghost function Restarts(p: string, s: string, lo: nat, hi: nat): nat
    decreases hi - lo
  {
    if lo >= hi then 0 else (if IsRestart(p, s, lo) then 1 else 0) + Restarts(p, s, lo + 1, hi)
  }

  // ------------------------------------------------------------ cutting after a mismatch

  /** `cnt` bytes of `p` matched at the start of `s` and the next one did not. */
  predicate Mismatch(p: string, s: string, cnt: nat) {
    cnt < |p| && cnt < |s| && s[..cnt] == p[..cnt] && s[cnt] != p[cnt]
  }

  /** Where matching goes on: at the mismatched byte if it can start the pattern, else after it. */
  function Cut(p: string, s: string, cnt: nat): nat
    requires Mismatch(p, s, cnt)
  {
    if cnt > 0 && s[cnt] == p[0] then cnt else cnt + 1
  }

  /** No prefix of the pattern that starts before the cut reaches beyond the mismatch. */
  lemma NothingCrosses(p: string, s: string, cnt: nat, start: nat, c: nat)
    requires UniqueStart(p) && Mismatch(p, s, cnt) && start < Cut(p, s, cnt)
    requires 1 <= c <= |p| && start + c <= |s| && start + c > cnt
    ensures s[start..start + c] != p[..c]
  {
    if 0 < start < cnt {
      assert s[..cnt][start] == p[..cnt][start];
    }
    var w := if start == 0 then cnt else 0;
    assert s[start..start + c][w] != p[..c][w];
  }

  lemma NoMatchBeforeCut(p: string, s: string, cnt: nat, i: nat)
    requires UniqueStart(p) && Mismatch(p, s, cnt) && i < Cut(p, s, cnt)
    ensures !OccursAt(p, s, i)
  {
    if OccursAt(p, s, i) {
      assert p[..|p|] == p;
      NothingCrosses(p, s, cnt, i, |p|);
    }
  }

  lemma FirstAfterCut(p: string, s: string, cnt: nat, k: nat)
    requires UniqueStart(p) && Mismatch(p, s, cnt) && FirstAt(p, s, k)
    ensures var d := Cut(p, s, cnt); d <= k && FirstAt(p, s[d..], k - d)
  {
    var d := Cut(p, s, cnt);
    if k < d {
      NoMatchBeforeCut(p, s, cnt, k);
    }
    assert s[d..][k - d..k - d + |p|] == s[k..k + |p|];
    forall i | 0 <= i < k - d ensures !OccursAt(p, s[d..], i) {
      assert i + |p| <= |s[d..]| ==> s[d..][i..i + |p|] == s[d + i..d + i + |p|];
      assert !OccursAt(p, s, d + i);
    }
  }

  /** Restarts after the cut are the restarts of the rest. */
  lemma RestartAfterCut(p: string, s: string, cnt: nat, j: nat)
    requires UniqueStart(p) && Mismatch(p, s, cnt) && j > 0
    ensures IsRestart(p, s, Cut(p, s, cnt) + j) <==> IsRestart(p, s[Cut(p, s, cnt)..], j)
  {
    var d := Cut(p, s, cnt);
    var t := s[d..];
    hide PartialBefore, UniqueStart, Mismatch;
    if IsRestart(p, s, d + j) {
      var c: nat :| PartialBefore(p, s, d + j, c);
      PartialWithinCut(p, s, cnt, j, c);
      PartialShifts(p, s, d, j, c);
    }
    if IsRestart(p, t, j) {
      var c: nat :| PartialBefore(p, t, j, c);
      PartialShifts(p, s, d, j, c);
    }
  }

  lemma PartialWithinCut(p: string, s: string, cnt: nat, j: nat, c: nat)
    requires UniqueStart(p) && Mismatch(p, s, cnt) && j > 0 && PartialBefore(p, s, Cut(p, s, cnt) + j, c)
    ensures c <= j
  {
    var d := Cut(p, s, cnt);
    if c > j {
      NothingCrosses(p, s, cnt, d + j - c, c);
    }
  }

  lemma PartialShifts(p: string, s: string, d: nat, j: nat, c: nat)
    requires d <= |s| && (c <= j || PartialBefore(p, s[d..], j, c))
    ensures PartialBefore(p, s, d + j, c) <==> PartialBefore(p, s[d..], j, c)
  {
    if c <= j <= |s| - d {
      assert s[d..][j - c..j] == s[d + j - c..d + j];
    }
  }

  lemma {:induction false} RestartsAfterCut(p: string, s: string, cnt: nat, lo: nat, hi: nat)
    requires UniqueStart(p) && Mismatch(p, s, cnt) && lo > 0
    ensures Restarts(p, s, Cut(p, s, cnt) + lo, Cut(p, s, cnt) + hi) == Restarts(p, s[Cut(p, s, cnt)..], lo, hi)
    decreases hi - lo
  {
    if lo < hi {
      RestartAfterCut(p, s, cnt, lo);
      RestartsAfterCut(p, s, cnt, lo + 1, hi);
    }
  }

  /** The mismatched byte is a restart exactly when matching goes on at it. */
  lemma RestartAtMismatch(p: string, s: string, cnt: nat)
    requires UniqueStart(p) && Mismatch(p, s, cnt)
    ensures IsRestart(p, s, cnt) <==> Cut(p, s, cnt) == cnt
  {
    if Cut(p, s, cnt) == cnt {
      assert s[cnt - cnt..cnt] == p[..cnt];
      assert PartialBefore(p, s, cnt, cnt);
    }
  }

  lemma NoRestartAfterMismatch(p: string, s: string, cnt: nat)
    requires UniqueStart(p) && Mismatch(p, s, cnt) && Cut(p, s, cnt) == cnt + 1
    ensures !IsRestart(p, s, cnt + 1)
  {
    if IsRestart(p, s, cnt + 1) {
      var c: nat :| PartialBefore(p, s, cnt + 1, c);
      NothingCrosses(p, s, cnt, cnt + 1 - c, c);
    }
  }

  lemma RestartsFromMismatch(p: string, s: string, cnt: nat, k: nat)
    requires UniqueStart(p) && Mismatch(p, s, cnt) && FirstAt(p, s, k)
    ensures var d := Cut(p, s, cnt);
            && d <= k
            && Restarts(p, s, cnt, k + 1)
               == (if d == cnt then 1 + Restarts(p, s[d..], 1, k - d + 1) else Restarts(p, s[d..], 0, k - d + 1))
  {
    var d := Cut(p, s, cnt);
    FirstAfterCut(p, s, cnt, k);
    RestartAtMismatch(p, s, cnt);
    if d == cnt + 1 {
      NoRestartAfterMismatch(p, s, cnt);
    }
    RestartsAfterCut(p, s, cnt, 1, k - d + 1);
    assert !IsRestart(p, s[d..], 0);
  }

  // ------------------------------------------------------------ the byte loop

  /** The pattern matched so far and what is still unread. */
  function Virtual(p: string, cnt: nat, rest: string): string
    requires cnt <= |p|
  {
    p[..cnt] + rest
  }

  lemma VirtualMatch(p: string, cnt: nat, rest: string)
    requires cnt < |p| && rest != "" && rest[0] == p[cnt]
    ensures Virtual(p, cnt, rest) == Virtual(p, cnt + 1, rest[1..])
  {
    assert p[..cnt + 1] == p[..cnt] + [p[cnt]];
    assert rest == [rest[0]] + rest[1..];
  }

  lemma VirtualMismatch(p: string, cnt: nat, rest: string)
    requires cnt < |p| && rest != "" && rest[0] != p[cnt]
    ensures var s := Virtual(p, cnt, rest);
            && Mismatch(p, s, cnt)
            && (Cut(p, s, cnt) == cnt ==> s[cnt..] == Virtual(p, 1, rest[1..]))
            && s[cnt + 1..] == Virtual(p, 0, rest[1..])
            && s[..cnt] == p[..cnt] && s[..cnt + 1] == p[..cnt] + [rest[0]]
  {
    var s := Virtual(p, cnt, rest);
    assert s[..cnt] == p[..cnt] && s[cnt] == rest[0];
    assert s[cnt..] == rest;
    if Cut(p, s, cnt) == cnt {
      assert p[..1] == [rest[0]] && rest == [rest[0]] + rest[1..];
    }
    assert p[..0] + rest[1..] == rest[1..];
  }

  lemma TakesPlainByte(rest: string, max: nat)
    requires rest != ""
    ensures TakeByte(Plain(Open(rest)), max) == Ok((Some(rest[0]), Plain(Open(rest[1..]))))
  {
  }

  /** The copy of the part that `s` holds up to its first boundary at `k`, from a state with `cnt`
      bytes matched and `out` written: exactly the bytes before the boundary. The recorded size
      counts every restart once more. */
  ghost function Copied(p: string, s: string, cnt: nat, k: nat, n: int, out: string, fsize: nat): Copy
    requires k + |p| <= |s| && n + k + |p| >= cnt
  {
    Copy(out + s[..k], fsize + k + Restarts(p, s, cnt, k + 1), n + k + |p| - cnt, Plain(Open(s[k + |p|..])))
  }

  lemma CopiedOnMatch(p: string, s: string, cnt: nat, k: nat, n: nat, out: string, fsize: nat)
    requires UniqueStart(p) && cnt < |p| && k + |p| <= |s| && s[..cnt + 1] == p[..cnt + 1]
    ensures Copied(p, s, cnt + 1, k, n + 1, out, fsize) == Copied(p, s, cnt, k, n, out, fsize)
  {
    assert s[cnt] == s[..cnt + 1][cnt] == p[..cnt + 1][cnt] == p[cnt];
    assert !IsRestart(p, s, cnt);
  }

  lemma CopiedOnMismatch(p: string, s: string, cnt: nat, k: nat, n: nat, out: string, fsize: nat)
    requires UniqueStart(p) && Mismatch(p, s, cnt) && FirstAt(p, s, k)
    ensures var d := Cut(p, s, cnt);
            && d <= k
            && Copied(p, s[d..], if d == cnt then 1 else 0, k - d, n + 1, out + s[..d], fsize + cnt + 1)
               == Copied(p, s, cnt, k, n, out, fsize)
  {
    var d := Cut(p, s, cnt);
    RestartsFromMismatch(p, s, cnt, k);
    assert (out + s[..d]) + s[d..][..k - d] == out + s[..k];
    assert s[d..][k - d + |p|..] == s[k + |p|..];
  }

  lemma MismatchStep(rest: string, n: nat, max: nat, p: string, cnt: nat, out: string, fsize: nat)
    requires Ascii(p)
    requires cnt < |p| && rest != "" && rest[0] != p[cnt] && !Over(n + 1, max)
    ensures var s := Virtual(p, cnt, rest);
            && Mismatch(p, s, cnt) && Cut(p, s, cnt) <= |s| && (Cut(p, s, cnt) == cnt ==> 1 < |p|)
            && CopyFile(Plain(Open(rest)), n, max, p, cnt, out, fsize)
               == CopyFile(Plain(Open(rest[1..])), n + 1, max, p, if Cut(p, s, cnt) == cnt then 1 else 0,
                           out + s[..Cut(p, s, cnt)], fsize + cnt + 1)
  {
    TakesPlainByte(rest, max);
    VirtualMismatch(p, cnt, rest);
    assert out + p[..cnt] + [rest[0]] == out + (p[..cnt] + [rest[0]]);
    assert cnt == 0 ==> p[..cnt] + [rest[0]] == [rest[0]];
  }

  lemma LastMatch(rest: string, n: nat, max: nat, p: string, cnt: nat, out: string, fsize: nat)
    requires Ascii(p)
    requires cnt + 1 == |p| && rest != "" && rest[0] == p[cnt] && !Over(n + 1, max)
    ensures OccursAt(p, Virtual(p, cnt, rest), 0)
    ensures CopyFile(Plain(Open(rest)), n, max, p, cnt, out, fsize)
            == Ok(Copied(p, Virtual(p, cnt, rest), |p|, 0, n + 1, out, fsize))
  {
    TakesPlainByte(rest, max);
    VirtualMatch(p, cnt, rest);
    var s := Virtual(p, cnt, rest);
    assert s == p + rest[1..] && s[..|p|] == p && s[|p|..] == rest[1..] && out + s[..0] == out;
  }

  /** A mismatch leads to a smaller instance of the same problem. */
  lemma MismatchCase(rest: string, n: nat, max: nat, p: string, cnt: nat, out: string, fsize: nat, k: nat)
      returns (d: nat, cnt': nat, out': string)
    requires Ascii(p)
    requires UniqueStart(p) && cnt < |p| && rest != "" && rest[0] != p[cnt] && !Over(n + 1, max)
    requires FirstAt(p, Virtual(p, cnt, rest), k)
    ensures d <= k && cnt' <= 1 < |p| && d + cnt' == cnt + 1
    ensures FirstAt(p, Virtual(p, cnt', rest[1..]), k - d)
    ensures CopyFile(Plain(Open(rest)), n, max, p, cnt, out, fsize)
            == CopyFile(Plain(Open(rest[1..])), n + 1, max, p, cnt', out', fsize + cnt + 1)
    ensures Copied(p, Virtual(p, cnt', rest[1..]), cnt', k - d, n + 1, out', fsize + cnt + 1)
            == Copied(p, Virtual(p, cnt, rest), cnt, k, n, out, fsize)
  {
    hide CopyFile, Copied, FirstAt, Ascii;
    var s := Virtual(p, cnt, rest);
    MismatchStep(rest, n, max, p, cnt, out, fsize);
    VirtualMismatch(p, cnt, rest);
    FirstAfterCut(p, s, cnt, k);
    CopiedOnMismatch(p, s, cnt, k, n, out, fsize);
    d := Cut(p, s, cnt);
    cnt' := if d == cnt then 1 else 0;
    out' := out + s[..d];
    assert s[d..] == Virtual(p, cnt', rest[1..]);
  }

  lemma FirstFits(p: string, cnt: nat, rest: string, k: nat)
    requires cnt < |p| && FirstAt(p, Virtual(p, cnt, rest), k)
    ensures rest != "" && k + |p| <= |Virtual(p, cnt, rest)|
    ensures rest[0] == p[cnt] ==> Virtual(p, cnt, rest)[..cnt + 1] == p[..cnt + 1]
  {
    assert |Virtual(p, cnt, rest)| == cnt + |rest|;
  }

  lemma FirstAtZero(p: string, s: string, k: nat)
    requires FirstAt(p, s, k) && OccursAt(p, s, 0)
    ensures k == 0
  {
  }

  lemma MatchStep(rest: string, n: nat, max: nat, p: string, cnt: nat, out: string, fsize: nat)
    requires Ascii(p)
    requires cnt + 1 < |p| && rest != "" && rest[0] == p[cnt] && !Over(n + 1, max)
    ensures CopyFile(Plain(Open(rest)), n, max, p, cnt, out, fsize)
            == CopyFile(Plain(Open(rest[1..])), n + 1, max, p, cnt + 1, out, fsize)
  {
    TakesPlainByte(rest, max);
  }

  /** The byte loop on a plain stream stops just after the first boundary. */
  lemma {:induction false} CopyStopsAtBoundary(rest: string, n: nat, max: nat, p: string, cnt: nat,
                                               out: string, fsize: nat, k: nat)
    requires Ascii(p)
    requires UniqueStart(p) && cnt < |p| && FirstAt(p, Virtual(p, cnt, rest), k)
    requires max == 0 || n + k + |p| - cnt <= max
    ensures CopyFile(Plain(Open(rest)), n, max, p, cnt, out, fsize)
            == Ok(Copied(p, Virtual(p, cnt, rest), cnt, k, n, out, fsize))
    decreases |rest|
  {
    hide CopyFile, Copied, FirstAt, UniqueStart, Virtual, Ascii;
    var s := Virtual(p, cnt, rest);
    FirstFits(p, cnt, rest, k);
    if rest[0] != p[cnt] {
      var d, cnt', out' := MismatchCase(rest, n, max, p, cnt, out, fsize, k);
      CopyStopsAtBoundary(rest[1..], n + 1, max, p, cnt', out', fsize + cnt + 1, k - d);
      return;
    }
    VirtualMatch(p, cnt, rest);
    if cnt + 1 == |p| {
      LastMatch(rest, n, max, p, cnt, out, fsize);
      FirstAtZero(p, s, k);
    } else {
      MatchStep(rest, n, max, p, cnt, out, fsize);
      CopyStopsAtBoundary(rest[1..], n + 1, max, p, cnt + 1, out, fsize, k);
    }
    CopiedOnMatch(p, s, cnt, k, n, out, fsize);
  }

  // ------------------------------------------------------------ a whole file part

  predicate Contains(p: string, s: string) {
    exists i :: 0 <= i <= |s| && OccursAt(p, s, i)
  }

  lemma FirstAfterContent(p: string, content: string, tail: string)
    requires UniqueStart(p) && !Contains(p, content)
    ensures FirstAt(p, content + p + tail, |content|)
  {
    var s := content + p + tail;
    forall i | 0 <= i < |content| ensures !OccursAt(p, s, i) {
      assert !OccursAt(p, content, i);
      if i + |p| <= |content| {
        assert s[i..i + |p|] == content[i..i + |p|];
      } else {
        assert s[i..i + |p|][|content| - i] == s[|content|] == p[0];
      }
    }
  }

  /** A file part that does not contain the boundary line comes back byte for byte. */
  lemma FilePartCopied(content: string, tail: string, n: nat, max: nat, p: string)
    requires Ascii(p)
    requires UniqueStart(p) && !Contains(p, content)
    requires max == 0 || n + |content| + |p| <= max
    ensures var s := content + p + tail;
            CopyFile(Plain(Open(s)), n, max, p, 0, "", 0)
            == Ok(Copy(content, |content| + Restarts(p, s, 0, |content| + 1), n + |content| + |p|, Plain(Open(tail))))
  {
    var s := content + p + tail;
    FirstAfterContent(p, content, tail);
    assert Virtual(p, 0, s) == s;
    CopyStopsAtBoundary(s, n, max, p, 0, "", 0, |content|);
    assert "" + s[..|content|] == content && s[|content| + |p|..] == tail;
  }

  lemma {:induction false} RestartsZero(p: string, s: string, lo: nat, hi: nat)
    ensures Restarts(p, s, lo, hi) == 0 <==> forall j :: lo <= j < hi ==> !IsRestart(p, s, j)
    decreases hi - lo
  {
    if lo < hi {
      RestartsZero(p, s, lo + 1, hi);
    }
  }

  /** The recorded upload size: bytes written plus restarts, so it is the file size exactly when no
      partial match of the boundary fails on a byte that starts it again. */
  lemma RecordedSizeExact(content: string, tail: string, n: nat, max: nat, p: string)
    requires Ascii(p)
    requires UniqueStart(p) && !Contains(p, content)
    requires max == 0 || n + |content| + |p| <= max
    ensures var s := content + p + tail;
            var r := CopyFile(Plain(Open(s)), n, max, p, 0, "", 0);
            && r.Ok? && r.value.out == content && r.value.fsize == |content| + Restarts(p, s, 0, |content| + 1)
            && (r.value.fsize == |content| <==> forall j :: 0 <= j <= |content| ==> !IsRestart(p, s, j))
  {
    FilePartCopied(content, tail, n, max, p);
    RestartsZero(p, content + p + tail, 0, |content| + 1);
  }

  /** The content "\r": its byte is a partial match that fails on the CR of the boundary, and two bytes
      are recorded for one. */
  lemma RecordedSizeWitness()
    ensures var r := CopyFile(Plain(Open("\r" + (CRLF + "--x"))), 0, 0, CRLF + "--x", 0, "", 0);
            r.Ok? && r.value.out == "\r" && r.value.fsize == 2
  {
    hide CopyFile;
    var p := CRLF + "--x";
    var s := "\r" + p;
    assert s == "\r" + p + "" && !Contains(p, "\r");
    RecordedSizeExact("\r", "", 0, 0, p);
    assert s[0..1] == p[..1] && s[1] == p[0];
    assert PartialBefore(p, s, 1, 1) && IsRestart(p, s, 1) && !IsRestart(p, s, 0);
    assert Restarts(p, s, 1, 2) == 1 && Restarts(p, s, 0, 2) == 1;
  }

  lemma SuffixLacks(p: string, s: string, d: nat)
    requires d <= |s| && !Contains(p, s)
    ensures !Contains(p, s[d..])
  {
    forall i | 0 <= i <= |s[d..]| ensures !OccursAt(p, s[d..], i) {
      assert i + |p| <= |s[d..]| ==> s[d..][i..i + |p|] == s[d + i..d + i + |p|];
      assert !OccursAt(p, s, d + i);
    }
  }

  // ------------------------------------------------------------ input without a boundary

  /** The byte loop over `rest`, from `cnt` matched bytes, never completes the pattern. */
  predicate Unmatched(p: string, cnt: nat, rest: string)
    requires cnt < |p|
    decreases |rest|
  {
    rest == "" || (var cnt' := CopyByte(rest[0], p, cnt, "", 0).0; cnt' < |p| && Unmatched(p, cnt', rest[1..]))
  }

  /** Where `char` is signed, a pattern with a byte above 127 is never completed, whatever the input
      and the state of the loop in front of that byte. */
  lemma {:induction false} HighUnmatched(p: string, cnt: nat, rest: string, k: nat)
    requires cnt <= k < |p| && p[k] as int >= 128
    ensures Unmatched(p, cnt, rest)
    decreases |rest|
  {
    if rest != "" {
      HighUnmatched(p, CopyByte(rest[0], p, cnt, "", 0).0, rest[1..], k);
    }
  }

  lemma MismatchLacks(p: string, cnt: nat, rest: string) returns (cnt': nat)
    requires Ascii(p) && UniqueStart(p) && cnt < |p| && rest != "" && rest[0] != p[cnt]
    requires !Contains(p, Virtual(p, cnt, rest))
    ensures cnt' < |p| && CopyByte(rest[0], p, cnt, "", 0).0 == cnt' && !Contains(p, Virtual(p, cnt', rest[1..]))
  {
    var s := Virtual(p, cnt, rest);
    VirtualMismatch(p, cnt, rest);
    var d := Cut(p, s, cnt);
    cnt' := if d == cnt then 1 else 0;
    assert s[d..] == Virtual(p, cnt', rest[1..]);
    SuffixLacks(p, s, d);
  }

  lemma MatchLacks(p: string, cnt: nat, rest: string)
    requires cnt < |p| && rest != "" && rest[0] == p[cnt] && !Contains(p, Virtual(p, cnt, rest))
    ensures cnt + 1 < |p| && !Contains(p, Virtual(p, cnt + 1, rest[1..]))
  {
    VirtualMatch(p, cnt, rest);
    if cnt + 1 == |p| {
      assert Virtual(p, cnt, rest)[0..0 + |p|] == p;
      assert OccursAt(p, Virtual(p, cnt, rest), 0);
    }
  }

  lemma {:induction false} LacksUnmatched(p: string, cnt: nat, rest: string)
    requires Ascii(p) && UniqueStart(p) && cnt < |p| && !Contains(p, Virtual(p, cnt, rest))
    ensures Unmatched(p, cnt, rest)
    decreases |rest|
  {
    hide Contains, UniqueStart, Virtual;
    if rest == "" {
      return;
    }
    if rest[0] != p[cnt] {
      var cnt' := MismatchLacks(p, cnt, rest);
      LacksUnmatched(p, cnt', rest[1..]);
    } else {
      MatchLacks(p, cnt, rest);
      LacksUnmatched(p, cnt + 1, rest[1..]);
    }
  }

  /** Without the boundary in the input, and with a byte above 127 in it, it is never found. */
  lemma NeverMatched(p: string, rest: string)
    requires UniqueStart(p) && (!Contains(p, rest) || !Ascii(p))
    ensures Unmatched(p, 0, rest)
  {
    if Ascii(p) {
      assert Virtual(p, 0, rest) == rest;
      LacksUnmatched(p, 0, rest);
    } else {
      var k :| 0 <= k < |p| && p[k] as int >= 128;
      HighUnmatched(p, 0, rest, k);
    }
  }

  lemma NoInputFails(n: nat, max: nat, p: string, cnt: nat, out: string, fsize: nat, boundary: string)
    requires cnt < |p|
    ensures var r := CopyFile(Plain(Open("")), n, max, p, cnt, out, fsize);
            r.Ok? && AfterFile(r.value.src, r.value.n, max, boundary).Err?
  {
  }

  lemma {:induction false} UnmatchedFails(rest: string, n: nat, max: nat, p: string, cnt: nat, out: string,
                                          fsize: nat, boundary: string)
    requires cnt < |p| && Unmatched(p, cnt, rest)
    ensures var r := CopyFile(Plain(Open(rest)), n, max, p, cnt, out, fsize);
            r.Err? || AfterFile(r.value.src, r.value.n, max, boundary).Err?
    decreases |rest|
  {
    if rest == "" {
      NoInputFails(n, max, p, cnt, out, fsize, boundary);
      return;
    }
    TakesPlainByte(rest, max);
    if !Over(n + 1, max) {
      CopyFileUnfold(Plain(Open(rest)), n, max, p, cnt, out, fsize, rest[0], Plain(Open(rest[1..])));
      var (cnt', out', fsize') := CopyByte(rest[0], p, cnt, out, fsize);
      hide CopyFile;
      UnmatchedFails(rest[1..], n + 1, max, p, cnt', out', fsize', boundary);
    }
  }

  /** On a plain body the loop then runs into the end of the input, and the form is refused. */
  lemma NoBoundaryFails(rest: string, n: nat, max: nat, p: string, boundary: string)
    requires UniqueStart(p) && (!Contains(p, rest) || !Ascii(p))
    ensures var r := CopyFile(Plain(Open(rest)), n, max, p, 0, "", 0);
            r.Err? || AfterFile(r.value.src, r.value.n, max, boundary).Err?
  {
    NeverMatched(p, rest);
    UnmatchedFails(rest, n, max, p, 0, "", 0, boundary);
  }

  // ------------------------------------------------------------ where the pattern comes from

  lemma {:induction false} TrimLeftNoEol(s: string)
    requires NoEol(s)
    ensures NoEol(TrimLeft(s))
  {
    if s != "" && Numbers.IsSpace(s[0]) {
      TrimLeftNoEol(s[1..]);
    }
  }

  lemma {:induction false} TrimRightNoEol(s: string)
    requires NoEol(s)
    ensures NoEol(TrimRight(s))
  {
    if s != "" && Numbers.IsSpace(s[|s| - 1]) {
      TrimRightNoEol(s[..|s| - 1]);
    }
  }

  lemma TrimAllCons(x: string, xs: seq<string>)
    ensures TrimAll([x] + xs) == [Trim(x)] + TrimAll(xs)
  {
    assert ([x] + xs)[1..] == xs;
  }

  lemma {:induction false} OptionsNoEol(value: string)
    requires NoEol(value)
    ensures forall i :: 0 <= i < |HeaderValue(value)| ==> NoEol(HeaderValue(value)[i])
    decreases |value|
  {
    var p := Find(';', value);
    TrimLeftNoEol(value[..p]);
    TrimRightNoEol(TrimLeft(value[..p]));
    if p == |value| {
      assert value[..p] == value;
      TrimAllCons(value, []);
      assert [value] + [] == [value];
    } else {
      OptionsNoEol(value[p + 1..]);
      var more := Pieces(value[p + 1..], ';');
      TrimAllCons(value[..p], more);
      assert HeaderValue(value) == [Trim(value[..p])] + HeaderValue(value[p + 1..]);
    }
  }

  lemma {:induction false} BoundaryNoEol(opts: seq<string>)
    requires forall i :: 0 <= i < |opts| ==> NoEol(opts[i])
    ensures BoundaryOf(opts).Some? ==> NoEol(BoundaryOf(opts).value)
  {
    if opts != [] {
      BoundaryNoEol(opts[..|opts| - 1]);
    }
  }

  /** Why the restart is sound: the boundary comes from a header line, a line never contains CR, and
      so CR is nowhere in the pattern but at its start. */
  lemma HeaderBoundaryHasUniqueStart(s: Stream, max: nat)
    requires ReadLine(s, max).Ok?
    ensures var value := Trim(After(':', ReadLine(s, max).value.text));
            var b := BoundaryOf(HeaderValue(value));
            b.Some? ==> NoEol(b.value) && UniqueStart(CRLF + b.value)
  {
    LineHasNoEol(s, max);
    var after := After(':', ReadLine(s, max).value.text);
    TrimLeftNoEol(after);
    TrimRightNoEol(TrimLeft(after));
    OptionsNoEol(Trim(after));
    BoundaryNoEol(HeaderValue(Trim(after)));
  }
}
