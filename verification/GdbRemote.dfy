/** Framing of the GDB remote serial protocol: packets with a checksum, sent until acknowledged, read with noise. */
module GdbRemote {
  import opened Machine
  import opened Hex

  /** static_cast<uint8_t> */
  function ByteOf(c: char): u8 { c as int % 0x100 }

  function Sum(s: string): nat {
    if s == "" then 0 else Sum(s[..|s| - 1]) + ByteOf(s[|s| - 1])
  }

  function Checksum(s: string): u8 { Sum(s) % 0x100 }

  function Frame(s: string): string {
    "$" + s + "#" + Byte(Checksum(s))
  }

  /** What a checksum is: 0 for no payload, and each further character counts as itself, modulo 256. */
  lemma ChecksumCounts(s: string, c: char)
    ensures Checksum("") == 0 && Checksum(s + [c]) as int == (Checksum(s) as int + c as int) % 0x100
  {
    assert (s + [c])[..|s|] == s;
    RemainderOfSum(Sum(s), c as int);
  }

  lemma RemainderOfSum(n: nat, c: nat)
    ensures (n + c % 0x100) % 0x100 == (n % 0x100 + c) % 0x100
  {
  }

  /** A frame, character by character: its two digits are in upper case. */
  lemma FrameIs(s: string)
    ensures
      var (f, n) := (Frame(s), |s|);
      && |f| == n + 4 && f[0] == '$' && f[1..n + 1] == s && f[n + 1] == '#'
      && f[n + 2] == "0123456789ABCDEF"[Checksum(s) / 16] && f[n + 3] == "0123456789ABCDEF"[Checksum(s) % 16]
  {
    DigitsAre(Checksum(s) / 16);
    DigitsAre(Checksum(s) % 16);
  }

  // ----- Sending

  predicate IsVerdict(c: char) { c == '+' || c == '-' }

  /** Index of the first ack or nak, or |s| when the peer closes before it. */
  function FirstVerdict(s: string): (n: nat)
    ensures n <= |s| && (n < |s| ==> IsVerdict(s[n]))
    ensures forall i :: 0 <= i < n ==> !IsVerdict(s[i])
  {
    if s == "" || IsVerdict(s[0]) then 0 else 1 + FirstVerdict(s[1..])
  }

  /** How often a frame goes out, and whether it was acknowledged. Nothing is sent after the peer has closed. */
  function Attempts(replies: string, tries: nat): (nat, bool)
    decreases tries
  {
    if tries == 0 then (0, false)
    else
      var n := FirstVerdict(replies);
      if n == |replies| then (1, false)
      else if replies[n] == '+' then (1, true)
      else var (k, ok) := Attempts(replies[n + 1..], tries - 1); (k + 1, ok)
  }

  function Copies(s: string, k: nat): string {
    if k == 0 then "" else s + Copies(s, k - 1)
  }

  const MAX_TRIES := 10

  method SumOf(s: string) returns (sum: nat)
    ensures sum == Sum(s)
  {
    sum := 0;
    for i := 0 to |s|
      invariant sum == Sum(s[..i])
    {
      assert s[..i + 1][..i] == s[..i];
      sum := sum + ByteOf(s[i]);
    }
    assert s[..|s|] == s;
  }

  /** Reads up to the first ack or nak, past anything else; None when the peer closes before it. */
  method WaitAckOrNak(replies: string) returns (ack: Option<bool>, rest: string)
    ensures
      var n := FirstVerdict(replies);
      if n == |replies| then ack.None? else ack == Some(replies[n] == '+') && rest == replies[n + 1..]
  {
    rest := replies;
    var i := 0;
    while i < |replies|
      invariant 0 <= i <= |replies| && forall j :: 0 <= j < i ==> !IsVerdict(replies[j])
    {
      if replies[i] == '-' {
        return Some(false), replies[i + 1..];
      } else if replies[i] == '+' {
        return Some(true), replies[i + 1..];
      }
      i := i + 1;
    }
    return None, "";
  }

  /** replies is what the peer sends back before it closes. */
  method Response(resp: string, replies: string) returns (sent: string, ok: bool)
    ensures var (k, acked) := Attempts(replies, 10); sent == Copies(Frame(resp), k) && ok == acked
  {
    var sum := SumOf(resp);
    sent, ok := SendUntilAcked("$" + resp + "#" + Byte(sum % 0x100), replies);
  }

  method SendUntilAcked(line: string, replies: string) returns (sent: string, ok: bool)
    ensures var (k, acked) := Attempts(replies, MAX_TRIES); sent == Copies(line, k) && ok == acked
  {
    hide Copies, FirstVerdict, Attempts;
    var count, open, rest := 0, true, replies;
    ghost var frames, end := 0, Attempts(replies, MAX_TRIES);
    sent := "";
    NoCopies(line);
    while count < MAX_TRIES
      invariant 0 <= count <= MAX_TRIES && sent == Copies(line, frames)
      invariant if open then end == (frames + Attempts(rest, MAX_TRIES - count).0, Attempts(rest, MAX_TRIES - count).1)
                else end == (frames, false)
    {
      if open {
        CopiesSnoc(line, frames);
        sent, frames := sent + line, frames + 1;
        var ack: Option<bool>;
        NextAttempt(rest, MAX_TRIES - count);
        ack, rest := WaitAckOrNak(rest);
        if ack == Some(true) {
          return sent, true;
        }
        open := ack.Some?;
      }
      count := count + 1;
    }
    NoAttempt(rest);
    return sent, false;
  }

  lemma NoAttempt(replies: string)
    ensures Attempts(replies, 0) == (0, false)
  {
  }

  lemma NextAttempt(replies: string, tries: nat)
    requires tries > 0
    ensures
      var n := FirstVerdict(replies);
      Attempts(replies, tries) ==
        if n == |replies| then (1, false) else if replies[n] == '+' then (1, true)
        else (Attempts(replies[n + 1..], tries - 1).0 + 1, Attempts(replies[n + 1..], tries - 1).1)
  {
  }

  lemma NoCopies(s: string)
    ensures Copies(s, 0) == ""
  {
  }

  lemma {:induction false} CopiesSnoc(s: string, k: nat)
    ensures Copies(s, k + 1) == Copies(s, k) + s
  {
    if k > 0 {
      CopiesSnoc(s, k - 1);
      assert Copies(s, k + 1) == s + (Copies(s, k - 1) + s) == s + Copies(s, k - 1) + s;
    }
  }

  /** The acks and naks among the replies. */
  function Verdicts(replies: string): string {
    if replies == "" then ""
    else (if IsVerdict(replies[0]) then [replies[0]] else "") + Verdicts(replies[1..])
  }

  lemma NextVerdict(replies: string)
    requires replies != ""
    ensures FirstVerdict(replies) == if IsVerdict(replies[0]) then 0 else 1 + FirstVerdict(replies[1..])
    ensures Verdicts(replies) == (if IsVerdict(replies[0]) then [replies[0]] else "") + Verdicts(replies[1..])
  {
  }

  lemma {:induction false} VerdictsFromFirst(replies: string)
    ensures
      var n := FirstVerdict(replies);
      Verdicts(replies) == if n == |replies| then "" else [replies[n]] + Verdicts(replies[n + 1..])
  {
    if replies != "" {
      hide FirstVerdict, Verdicts, IsVerdict;
      NextVerdict(replies);
      if !IsVerdict(replies[0]) {
        var tail, m := replies[1..], FirstVerdict(replies[1..]);
        VerdictsFromFirst(tail);
        assert m < |tail| ==> tail[m + 1..] == replies[m + 2..];
      }
    }
  }

  /** A response succeeds exactly when an ack is among the first ten verdicts, after one frame for each up to it. */
  lemma {:induction false} AcknowledgedExactly(replies: string, tries: nat)
    ensures
      var (k, ok) := Attempts(replies, tries);
      var v := Verdicts(replies);
      && (ok <==> exists i :: 0 <= i < |v| && i < tries && v[i] == '+')
      && (ok ==> 0 < k <= |v| && v[k - 1] == '+' && forall i :: 0 <= i < k - 1 ==> v[i] == '-')
      && (!ok ==> k == if |v| < tries then |v| + 1 else tries)
    decreases tries
  {
    hide Verdicts, FirstVerdict;
    VerdictsFromFirst(replies);
    var n, v := FirstVerdict(replies), Verdicts(replies);
    if tries > 0 && n < |replies| && replies[n] == '-' {
      AcknowledgedExactly(replies[n + 1..], tries - 1);
      var w := Verdicts(replies[n + 1..]);
      assert v == ['-'] + w;
      if i :| 0 <= i < |v| && i < tries && v[i] == '+' {
        assert w[i - 1] == '+';
      }
      if i :| 0 <= i < |w| && i < tries - 1 && w[i] == '+' {
        assert v[i + 1] == '+';
      }
    } else if tries > 0 && n < |replies| {
      assert v[0] == '+';
    }
  }

  // ----- Receiving

  predicate IsSpace(c: char) {
    c == ' ' || '\t' as int <= c as int <= '\r' as int
  }

  /** stoul(cs, nullptr, 16) of two characters; a negative number stands for the huge value it wraps to. */
  function Stoul16(a: char, b: char): Option<int> {
    if IsHexDigit(a) then
      if IsHexDigit(b) then Some(16 * DigitValue(a) + DigitValue(b)) else Some(DigitValue(a))
    else if (IsSpace(a) || a == '+') && IsHexDigit(b) then Some(DigitValue(b))
    else if a == '-' && IsHexDigit(b) then Some(0 - DigitValue(b) as int)
    else None
  }

  /** Two digits count 16 and 1; one digit, before anything else or behind a blank or a sign, counts 1; no other two
      characters are a number. */
  lemma StoulReads(a: char, b: char)
    ensures IsHexDigit(a) && IsHexDigit(b) ==> Stoul16(a, b) == Some(16 * DigitValue(a) + DigitValue(b))
    ensures IsHexDigit(a) && !IsHexDigit(b) ==> Stoul16(a, b) == Some(DigitValue(a))
    ensures a in " \t\n\U{000b}\U{000c}\r+" && IsHexDigit(b) ==> Stoul16(a, b) == Some(DigitValue(b))
    ensures IsHexDigit(b) ==> Stoul16('-', b) == Some(0 - DigitValue(b) as int)
    ensures Stoul16(a, b).Some? <==> IsHexDigit(a) || (a in " \t\n\U{000b}\U{000c}\r+-" && IsHexDigit(b))
  {
  }

  predicate ChecksumMatches(s: string, a: char, b: char) {
    Stoul16(a, b) == Some(Checksum(s) as int)
  }

  method ValidateChecksum(s: string, a: char, b: char) returns (ok: bool)
    ensures ok == ChecksumMatches(s, a, b)
  {
    var chk := Stoul16(a, b);
    if chk.None? {
      return false;
    }
    var cur := SumOf(s);
    return cur % 0x100 == chk.value;
  }

  /** The line that was read (empty on failure), whether it was acknowledged, and what is left in the stream. */
  datatype Received = Received(line: string, acked: bool, rest: string)

  const FAILED := Received("", false, "")

  /** After the '$': a frame whose checksum does not match leaves its line standing, and reading goes on. */
  function ReadLine(line: string, s: string): Received
    decreases |s|
  {
    if s == "" then FAILED
    else if s[0] != '#' then ReadLine(line + [s[0]], s[1..])
    else if |s| < 3 then FAILED
    else if ChecksumMatches(line, s[1], s[2]) then Received(line, true, s[3..])
    else ReadLine(line, s[3..])
  }

  function FirstDollar(s: string): (n: nat)
    ensures n <= |s| && (n < |s| ==> s[n] == '$')
    ensures forall i :: 0 <= i < n ==> s[i] != '$'
  {
    if s == "" || s[0] == '$' then 0 else 1 + FirstDollar(s[1..])
  }

  function Requested(s: string): Received {
    var n := FirstDollar(s);
    if n == |s| then FAILED else ReadLine("", s[n + 1..])
  }

  method WaitForDollar(stream: string) returns (found: bool, next: nat)
    ensures found == (FirstDollar(stream) < |stream|) && (found ==> next == FirstDollar(stream) + 1)
    ensures next <= |stream|
  {
    next := 0;
    while next < |stream|
      invariant 0 <= next <= |stream| && forall i :: 0 <= i < next ==> stream[i] != '$'
    {
      next := next + 1;
      if stream[next - 1] == '$' {
        return true, next;
      }
    }
    return false, next;
  }

  method Request(stream: string) returns (r: Received)
    ensures r == Requested(stream)
  {
    var found, i := WaitForDollar(stream);
    if !found {
      return FAILED;
    }
    var line := "";
    while i < |stream|
      invariant 0 <= i <= |stream| && ReadLine(line, stream[i..]) == Requested(stream)
    {
      var ch := stream[i];
      assert stream[i..][1..] == stream[i + 1..];
      if ch == '#' {
        if i + 3 > |stream| {
          return FAILED;
        }
        assert stream[i..][3..] == stream[i + 3..];
        var valid := ValidateChecksum(line, stream[i + 1], stream[i + 2]);
        i := i + 3;
        if valid {
          return Received(line, true, stream[i..]);
        }
      } else {
        line := line + [ch];
        i := i + 1;
      }
    }
    return FAILED;
  }

  // ----- What is sent is what is received

  lemma {:induction false} ReadsPayload(line: string, p: string, s: string)
    requires '#' !in p
    ensures ReadLine(line, p + s) == ReadLine(line + p, s)
    decreases |p|
  {
    if p == "" {
      assert p + s == s && line + p == line;
    } else {
      assert (p + s)[1..] == p[1..] + s;
      ReadsPayload(line + [p[0]], p[1..], s);
      assert line + [p[0]] + p[1..] == line + p;
    }
  }

  lemma {:induction false} LinesHaveNoHash(line: string, s: string)
    requires '#' !in line
    ensures '#' !in ReadLine(line, s).line
    decreases |s|
  {
    if s != "" && s[0] != '#' {
      LinesHaveNoHash(line + [s[0]], s[1..]);
    } else if |s| >= 3 && !ChecksumMatches(line, s[1], s[2]) {
      LinesHaveNoHash(line, s[3..]);
    }
  }

  lemma SkipsNoise(noise: string, s: string)
    requires '$' !in noise
    ensures Requested(noise + "$" + s) == ReadLine("", s)
  {
    var t := noise + "$" + s;
    assert t[|noise|] == '$';
    FirstDollarAt(t, |noise|);
    assert t[|noise| + 1..] == s;
  }

  lemma FirstDollarAt(s: string, n: nat)
    requires n < |s| && s[n] == '$' && forall i :: 0 <= i < n ==> s[i] != '$'
    ensures FirstDollar(s) == n
  {
  }

  lemma OwnChecksumMatches(s: string)
    ensures ChecksumMatches(s, Byte(Checksum(s))[0], Byte(Checksum(s))[1])
  {
    ByteReadsBack(Checksum(s));
  }

  /** A frame behind noise is read back as its payload, with what follows left in the stream, exactly when the payload
      holds no '#', which is not escaped. */
  lemma FrameReadsBackExactly(noise: string, p: string, rest: string)
    requires '$' !in noise
    ensures Requested(noise + Frame(p) + rest) == Received(p, true, rest) <==> '#' !in p
  {
    hide Byte, Checksum, ChecksumMatches, Requested, ReadLine;
    var sum := Byte(Checksum(p));
    assert noise + Frame(p) + rest == noise + "$" + (p + ("#" + sum + rest));
    SkipsNoise(noise, p + ("#" + sum + rest));
    if '#' !in p {
      ReadsPayload("", p, "#" + sum + rest);
      assert "" + p == p;
      EndsAtMatch(p, sum, rest);
    } else {
      LinesHaveNoHash("", p + ("#" + sum + rest));
    }
  }

  lemma EndsAtMatch(p: string, sum: string, rest: string)
    requires sum == Byte(Checksum(p))
    ensures ReadLine(p, "#" + sum + rest) == Received(p, true, rest)
  {
    hide Byte, Checksum, ChecksumMatches;
    OwnChecksumMatches(p);
    var s := "#" + sum + rest;
    assert |sum| == 2 by { ByteIsText(Checksum(p)); }
    assert s[1] == sum[0] && s[2] == sum[1] && s[3..] == rest;
  }

  // ----- What any stream is read as

  /** The '#' at index i is read as the end of a line, and not as part of an earlier checksum field. */
  predicate Ends(s: string, i: nat)
    decreases i
  {
    i < |s| &&
    if i == 0 then s[0] == '#'
    else if s[0] != '#' then Ends(s[1..], i - 1)
    else i >= 3 && Ends(s[3..], i - 3)
  }

  /** The characters that go into the line: all but the ends of lines and their fields. */
  function Plain(s: string): string
    decreases |s|
  {
    if s == "" then ""
    else if s[0] != '#' then [s[0]] + Plain(s[1..])
    else if |s| < 3 then ""
    else Plain(s[3..])
  }

  /** A line ends at index i with a field that matches all that was read into it. */
  predicate Matches(line: string, s: string, i: nat) {
    i + 3 <= |s| && Ends(s, i) && ChecksumMatches(line + Plain(s[..i]), s[i + 1], s[i + 2])
  }

  /** What is received at the first match. */
  predicate ReceivedAt(line: string, s: string, r: Received, i: nat) {
    && Matches(line, s, i) && r == Received(line + Plain(s[..i]), true, s[i + 3..])
    && forall j: nat :: j < i ==> !Matches(line, s, j)
  }

  lemma EndsFurtherOn(s: string, k: nat, i: nat)
    requires k <= |s| && (if k == 1 then s[0] != '#' else k == 3 && s[0] == '#')
    ensures Ends(s, k + i) == Ends(s[k..], i)
    ensures k + i <= |s| ==> Plain(s[..k + i]) == (if k == 1 then [s[0]] else "") + Plain(s[k..][..i])
    ensures forall j: nat :: 0 < j < k ==> !Ends(s, j)
  {
    if k + i <= |s| {
      assert s[..k + i][k..] == s[k..][..i];
    }
  }

  lemma MatchesFurtherOn(line: string, s: string, k: nat, i: nat)
    requires k <= |s| && (if k == 1 then s[0] != '#' else k == 3 && s[0] == '#')
    ensures
      var more := line + (if k == 1 then [s[0]] else "");
      && Matches(line, s, k + i) == Matches(more, s[k..], i)
      && (k + i + 3 <= |s| ==>
            line + Plain(s[..k + i]) == more + Plain(s[k..][..i]) && s[k + i + 3..] == s[k..][i + 3..])
  {
    hide Ends, Plain, ChecksumMatches;
    EndsFurtherOn(s, k, i);
    if k + i <= |s| {
      var one := if k == 1 then [s[0]] else "";
      assert line + (one + Plain(s[k..][..i])) == line + one + Plain(s[k..][..i]);
    }
  }

  /** The first match of what is left is the first match of all, when none came before. */
  lemma ReceivedFurtherOn(line: string, s: string, k: nat, r: Received)
    requires k <= |s| && (if k == 1 then s[0] != '#' else k == 3 && s[0] == '#') && !Matches(line, s, 0)
    ensures
      var more := line + (if k == 1 then [s[0]] else "");
      && (forall i: nat :: ReceivedAt(more, s[k..], r, i) ==> ReceivedAt(line, s, r, k + i))
      && ((forall i: nat :: !Matches(more, s[k..], i)) ==> forall i: nat :: !Matches(line, s, i))
  {
    hide Matches, Plain, Ends;
    var more := line + (if k == 1 then [s[0]] else "");
    forall i: nat ensures Matches(line, s, i) ==> i >= k && Matches(more, s[k..], i - k) {
      if i >= k {
        MatchesFurtherOn(line, s, k, i - k);
      } else {
        MatchEnds(line, s, i);
        EndsFurtherOn(s, k, 0);
      }
    }
    forall i: nat | ReceivedAt(more, s[k..], r, i) ensures ReceivedAt(line, s, r, k + i) {
      MatchesFurtherOn(line, s, k, i);
      MatchEnds(more, s[k..], i);
    }
  }

  lemma MatchEnds(line: string, s: string, i: nat)
    ensures Matches(line, s, i) ==> i + 3 <= |s| && Ends(s, i)
  {
  }

  /** On any stream: what is received is all that was read up to the first end of a line whose field matches it, with
      the rest left over; with no such end, nothing is received or acknowledged. */
  lemma {:induction false} ReceivedAtFirstMatch(line: string, s: string)
    ensures
      var r := ReadLine(line, s);
      if r.acked then exists i: nat :: ReceivedAt(line, s, r, i)
      else r == FAILED && forall i: nat :: !Matches(line, s, i)
    decreases |s|
  {
    hide ChecksumMatches, Matches;
    var r := ReadLine(line, s);
    MatchAtOnce(line, s);
    if s != "" && s[0] != '#' {
      ReceivedAtFirstMatch(line + [s[0]], s[1..]);
      ReceivedFurtherOn(line, s, 1, r);
    } else if |s| >= 3 && !ChecksumMatches(line, s[1], s[2]) {
      assert line + "" == line;
      ReceivedAtFirstMatch(line, s[3..]);
      ReceivedFurtherOn(line, s, 3, r);
    } else if |s| >= 3 {
      assert line + Plain(s[..0]) == line;
      assert ReceivedAt(line, s, r, 0);
    } else {
      forall i: nat ensures !Matches(line, s, i) {
        MatchEnds(line, s, i);
      }
    }
  }

  lemma MatchAtOnce(line: string, s: string)
    ensures Matches(line, s, 0) <==> |s| >= 3 && s[0] == '#' && ChecksumMatches(line, s[1], s[2])
  {
    assert line + Plain(s[..0]) == line;
  }

  // ----- A changed byte is noticed

  lemma {:induction false} SumAppend(a: string, b: string)
    ensures Sum(a + b) == Sum(a) + Sum(b)
    decreases |b|
  {
    if b == "" {
      assert a + b == a;
    } else {
      assert (a + b)[..|a + b| - 1] == a + b[..|b| - 1];
      SumAppend(a, b[..|b| - 1]);
    }
  }

  lemma SumOfOne(c: char)
    ensures Sum([c]) == ByteOf(c)
  {
    assert Sum([c]) == Sum([c][..0]) + ByteOf([c][0]);
  }

  lemma ChangedByteChangesChecksum(p: string, i: nat, c: char)
    requires i < |p| && ByteOf(c) != ByteOf(p[i])
    ensures Checksum(p[i := c]) != Checksum(p)
  {
    hide Sum, ByteOf;
    assert p == p[..i] + ([p[i]] + p[i + 1..]) && p[i := c] == p[..i] + ([c] + p[i + 1..]);
    SumAppend(p[..i], [p[i]] + p[i + 1..]);
    SumAppend([p[i]], p[i + 1..]);
    SumAppend(p[..i], [c] + p[i + 1..]);
    SumAppend([c], p[i + 1..]);
    SumOfOne(p[i]);
    SumOfOne(c);
    DifferentRemainders(Sum(p[..i]) + Sum(p[i + 1..]), ByteOf(p[i]), ByteOf(c));
  }

  lemma DifferentRemainders(n: nat, a: u8, b: u8)
    requires a != b
    ensures (n + a) % 0x100 != (n + b) % 0x100
  {
  }

  lemma GoesOnAtMismatch(q: string, b: u8, rest: string)
    requires b != Checksum(q)
    ensures ReadLine(q, "#" + Byte(b) + rest) == ReadLine(q, rest)
  {
    ByteReadsBack(b);
    ByteIsText(b);
    var s := "#" + Byte(b) + rest;
    assert s[3..] == rest && s[1] == Byte(b)[0] && s[2] == Byte(b)[1];
  }

  lemma {:induction false} NoEndWithoutHash(s: string, i: nat)
    requires '#' !in s
    ensures !Ends(s, i)
    decreases i
  {
    if s != "" && i > 0 {
      NoEndWithoutHash(s[1..], i - 1);
    }
  }

  /** A frame with one payload byte changed, to anything but '#', is not acknowledged: its line stays, and reading goes
      on behind it. Nothing is received exactly when no later field matches the line and what follows it, so always when
      no other '#' follows. */
  lemma CorruptionIsNotAcknowledged(noise: string, p: string, i: nat, c: char, rest: string)
    requires '$' !in noise && i < |p| && '#' !in p && c != '#' && ByteOf(c) != ByteOf(p[i])
    ensures
      var q := p[i := c];
      var r := Requested(noise + "$" + q + "#" + Byte(Checksum(p)) + rest);
      && r == ReadLine(q, rest) && (r == FAILED <==> forall k: nat :: !Matches(q, rest, k))
      && ('#' !in rest ==> r == FAILED)
  {
    hide Byte, Checksum, ChecksumMatches, Requested, ReadLine, Ends;
    var q, sum := p[i := c], Byte(Checksum(p));
    assert noise + "$" + q + "#" + sum + rest == noise + "$" + (q + ("#" + sum + rest));
    SkipsNoise(noise, q + ("#" + sum + rest));
    ReadsPayload("", q, "#" + sum + rest);
    assert "" + q == q;
    ChangedByteChangesChecksum(p, i, c);
    GoesOnAtMismatch(q, Checksum(p), rest);
    ReceivedAtFirstMatch(q, rest);
    if '#' !in rest {
      forall k: nat ensures !Matches(q, rest, k) {
        NoEndWithoutHash(rest, k);
      }
    }
  }

  /** When the peer then sends the frame again, its '$' and payload are added to the line that stands: it is
      acknowledged exactly when the line and the '$' add up to 0 modulo 256, and then not as the payload. */
  lemma RetransmissionIsAppended(q: string, p: string, rest: string)
    requires '#' !in p
    ensures
      var r := ReadLine(q, Frame(p) + rest);
      if (Sum(q) + 0x24) % 0x100 == 0 then r == Received(q + "$" + p, true, rest) && r.line != p
      else r == ReadLine(q + "$" + p, rest)
  {
    hide Byte, Checksum, ChecksumMatches, ReadLine;
    var line, sum := q + "$" + p, Byte(Checksum(p));
    assert Frame(p) + rest == ("$" + p) + ("#" + sum + rest);
    ReadsPayload(q, "$" + p, "#" + sum + rest);
    assert q + ("$" + p) == line;
    SumWithDollar(q, p);
    if Checksum(line) == Checksum(p) {
      EndsAtMatch(line, sum, rest);
    } else {
      GoesOnAtMismatch(line, Checksum(p), rest);
    }
    assert |line| != |p|;
  }

  lemma SumWithDollar(q: string, p: string)
    ensures Checksum(q + "$" + p) == Checksum(p) <==> (Sum(q) + 0x24) % 0x100 == 0
  {
    hide Sum;
    SumAppend(q + "$", p);
    SumAppend(q, "$");
    SumOfOne('$');
    SameRemainder(Sum(q) + 0x24, Sum(p));
  }

  lemma SameRemainder(d: nat, n: nat)
    ensures (d + n) % 0x100 == n % 0x100 <==> d % 0x100 == 0
  {
  }

  /** Behind noise and a '$', whatever comes: received is what stands before the first end of a line that matches. A
      frame damaged in any way, a '#' in its payload included, is such a stream. */
  lemma RequestedAtFirstMatch(noise: string, s: string)
    requires '$' !in noise
    ensures
      var r := Requested(noise + "$" + s);
      if r.acked then exists i: nat :: ReceivedAt("", s, r, i)
      else r == FAILED && forall i: nat :: !Matches("", s, i)
  {
    hide Requested, ReadLine, Matches, ReceivedAt;
    SkipsNoise(noise, s);
    ReceivedAtFirstMatch("", s);
  }

  /** A byte changed to '#' ends the line early. What stood before it is received in place of the payload when the two
      characters behind it happen to read as its sum; else they are lost, and the line goes on without them. */
  lemma ByteChangedToHash(noise: string, p: string, i: nat, rest: string)
    requires '$' !in noise && i + 2 < |p| && '#' !in p
    ensures
      var r := Requested(noise + "$" + p[i := '#'] + "#" + Byte(Checksum(p)) + rest);
      if ChecksumMatches(p[..i], p[i + 1], p[i + 2])
      then r == Received(p[..i], true, p[i + 3..] + "#" + Byte(Checksum(p)) + rest)
      else r == ReadLine(p[..i] + p[i + 3..], "#" + Byte(Checksum(p)) + rest)
  {
    hide Byte, Checksum, ChecksumMatches, Requested, ReadLine;
    var q, tail := p[i := '#'], "#" + Byte(Checksum(p)) + rest;
    var behind := p[i + 3..] + tail;
    assert q == p[..i] + (['#', p[i + 1], p[i + 2]] + p[i + 3..]);
    assert noise + "$" + q + "#" + Byte(Checksum(p)) + rest
        == noise + "$" + (p[..i] + (['#', p[i + 1], p[i + 2]] + behind));
    SkipsNoise(noise, p[..i] + (['#', p[i + 1], p[i + 2]] + behind));
    ReadsPayload("", p[..i], ['#', p[i + 1], p[i + 2]] + behind);
    assert "" + p[..i] == p[..i];
    EndsHere(p[..i], p[i + 1], p[i + 2], behind);
    ReadsPayload(p[..i], p[i + 3..], tail);
  }

  lemma EndsHere(line: string, a: char, b: char, behind: string)
    ensures ReadLine(line, ['#', a, b] + behind) ==
      if ChecksumMatches(line, a, b) then Received(line, true, behind) else ReadLine(line, behind)
  {
    hide ChecksumMatches;
    var s := ['#', a, b] + behind;
    assert s[3..] == behind;
  }

  /** A line that is taken for a payload: "Ax41" with its 'x' changed to '#' is received as "A". */
  lemma HashIsTakenForTheEnd()
    ensures Requested("$A#41#" + Byte(Checksum("Ax41"))) == Received("A", true, "#" + Byte(Checksum("Ax41")))
  {
    var p, sum := "Ax41", Byte(Checksum("Ax41"));
    assert p[1 := '#'] == "A#41" && p[..1] == "A" && p[4..] == "";
    SumOfOne('A');
    assert Checksum("A") == 0x41;
    assert "" + "$" + p[1 := '#'] + "#" + sum + "" == "$A#41#" + sum;
    ByteChangedToHash("", p, 1, "");
  }
}
