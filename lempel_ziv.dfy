/**
 * The sliding-window compressor of the toolkit (in the style of LZ77).
 *
 * The compressor keeps three character arrays: a dictionary of the last
 * `capacity` characters read, a look-ahead buffer of the next `capacity`
 * characters, and the rest of the message.  All three shift left together,
 * one character at a time.  For the character at the head of the buffer it
 * writes a triad p, q, c: p is 1 + the first position of that character in
 * the dictionary (0 if absent), q the length of the match between the
 * dictionary from there and the buffer, and c the character after the match.
 * The decompressor replays the triads through a buffer of the same capacity.
 *
 * Seen from outside, the arrays are windows onto one stream: `capacity`
 * NULs followed by the message and then NULs forever.  After t shifts the
 * dictionary holds stream positions t … t + capacity - 1 and the buffer the
 * next `capacity` positions.  The proofs below work in that view.
 */
module LempelZiv {
  import opened Bits

  /** The char value 0, which Java stores in fresh char arrays and uses as "empty". */
  const NUL: char := 0 as char

  // ---------------------------------------------------------------------------
  // Arrays as windows onto a stream
  // ---------------------------------------------------------------------------

  /** n NULs. */
  function Nuls(n: nat): (s: seq<char>)
    ensures |s| == n
  {
    seq(n, _ => NUL)
  }

  /** Position j of a, NUL outside it. */
  function At(a: seq<char>, j: int): char {
    if 0 <= j < |a| then a[j] else NUL
  }

  /** An unbounded sequence of characters, indexed by position. */
  type Stream = int -> char

  /** The stream of NULs with a written from position offset on. */
  function Embed(a: seq<char>, offset: nat): Stream {
    j => At(a, j - offset)
  }

  /** The stream is NUL from position n on. */
  ghost predicate NulFrom(X: Stream, n: int) {
    forall j :: j >= n ==> X(j) == NUL
  }

  /** An embedded sequence ends where it ends. */
  lemma EmbedNulFrom(a: seq<char>, offset: nat)
    ensures NulFrom(Embed(a, offset), offset + |a|)
  {
    forall j | j >= offset + |a|
      ensures Embed(a, offset)(j) == NUL
    {
      assert Embed(a, offset)(j) == At(a, j - offset);
    }
  }

  /** The len positions of X from position `from` on. */
  function Window(X: Stream, from: int, len: nat): (w: seq<char>)
    ensures |w| == len
  {
    seq(len, i => X(from + i))
  }

  /** Moving a window one position on drops its first character and takes in the next. */
  lemma WindowStep(X: Stream, from: int, len: nat)
    requires len >= 1
    ensures Window(X, from, len)[1..] + [X(from + len)] == Window(X, from + 1, len)
  {
  }

  /** A whole sequence is the window onto its embedding at position 0. */
  lemma WindowWhole(a: seq<char>)
    ensures Window(Embed(a, 0), 0, |a|) == a
  {
  }

  /**
   * The shift loop of the Java code: every cell takes its right neighbour's
   * value and the last cell takes x.  On an array of one cell the loop body
   * never runs, so nothing changes.
   */
  function Push(a: seq<char>, x: char): (r: seq<char>)
    ensures |r| == |a|
  {
    if |a| >= 2 then a[1..] + [x] else a
  }

  /** n shifts that fill with NUL. */
  function PushN(a: seq<char>, n: nat): (r: seq<char>)
    ensures |r| == |a|
  {
    if n == 0 then a else Push(PushN(a, n - 1), NUL)
  }

  /** A window that already reaches the NUL end of a stream moves on by n under n NUL-filling shifts. */
  lemma {:induction false} PushNWindow(X: Stream, from: int, len: nat, n: nat)
    requires len >= 2 && NulFrom(X, from + len)
    ensures PushN(Window(X, from, len), n) == Window(X, from + n, len)
  {
    if n > 0 {
      PushNWindow(X, from, len, n - 1);
      WindowStep(X, from + n - 1, len);
      assert X(from + n - 1 + len) == NUL;
    }
  }

  /** The inner shift loop on one array. */
  method ShiftOne(a: array<char>, x: char)
    modifies a
    ensures a[..] == Push(old(a[..]), x)
  {
    ghost var A := a[..];
    var L := a.Length;
    var j := 1;
    while j < L
      invariant 1 <= j && (L >= 1 ==> j <= L)
      invariant forall i :: 0 <= i < j - 1 && i < L ==> a[i] == A[i + 1]
      invariant forall i :: j - 1 <= i < L ==> a[i] == if j == L && i == L - 1 && L >= 2 then x else A[i]
    {
      a[j - 1] := a[j];
      if j == L - 1 {
        a[j] := x;
      }
      j := j + 1;
    }
    if L >= 2 {
      assert a[..] == A[1..] + [x];
    } else {
      assert a[..] == A;
    }
  }

  // ---------------------------------------------------------------------------
  // Shifting
  // ---------------------------------------------------------------------------

  /**
   * shiftLeft(dictionary, buffer, message): the dictionary takes in the head
   * of the buffer, the buffer the head of the message, and the message a NUL.
   */
  method ShiftLeft(dictionary: array<char>, buffer: array<char>, message: array<char>)
    requires dictionary != buffer && buffer != message && dictionary != message
    requires buffer.Length >= 1 && message.Length >= 1
    modifies dictionary, buffer, message
    ensures dictionary[..] == Push(old(dictionary[..]), old(buffer[0]))
    ensures buffer[..] == Push(old(buffer[..]), old(message[0]))
    ensures message[..] == Push(old(message[..]), NUL)
  {
    ShiftOne(dictionary, buffer[0]);
    ShiftOne(buffer, message[0]);
    ShiftOne(message, NUL);
  }

  /** shiftLeft(buffer, count): count NUL-filling shifts. */
  method ShiftLeftBy(buffer: array<char>, count: nat)
    modifies buffer
    ensures buffer[..] == PushN(old(buffer[..]), count)
  {
    for i := 0 to count
      invariant buffer[..] == PushN(old(buffer[..]), i)
    {
      ShiftOne(buffer, NUL);
    }
  }

  /** The character the decompressor emits for a buffer: its head, unless that is NUL. */
  function Front(buffer: seq<char>): string
    requires |buffer| >= 1
  {
    if buffer[0] != NUL then [buffer[0]] else []
  }

  /** What count emitting shifts append: the non-NUL heads met on the way. */
  function EmitN(buffer: seq<char>, count: nat): string
    requires |buffer| >= 1
  {
    if count == 0 then [] else EmitN(buffer, count - 1) + Front(PushN(buffer, count - 1))
  }

  /** shiftLeftToDecodedMessage: count times, emit the head of the buffer unless it is NUL, then shift a NUL in. */
  method ShiftLeftToDecodedMessage(buffer: array<char>, decodedMessage: string, count: nat) returns (decoded: string)
    requires buffer.Length >= 1
    modifies buffer
    ensures buffer[..] == PushN(old(buffer[..]), count)
    ensures decoded == decodedMessage + EmitN(old(buffer[..]), count)
  {
    decoded := decodedMessage;
    for i := 0 to count
      invariant buffer[..] == PushN(old(buffer[..]), i)
      invariant decoded == decodedMessage + EmitN(old(buffer[..]), i)
    {
      if buffer[0] != NUL {
        decoded := decoded + [buffer[0]];
      }
      ShiftOne(buffer, NUL);
    }
  }

  /**
   * fillBuffer: every buffer cell takes the head of the message, which then
   * shifts a NUL in.  A message of one character never shifts.
   */
  method FillBuffer(buffer: array<char>, message: array<char>)
    requires buffer != message && message.Length >= 1
    modifies buffer, message
    ensures message[..] == PushN(old(message[..]), buffer.Length)
    ensures forall i :: 0 <= i < buffer.Length ==> buffer[i] == PushN(old(message[..]), i)[0]
  {
    for i := 0 to buffer.Length
      invariant message[..] == PushN(old(message[..]), i)
      invariant forall j :: 0 <= j < i ==> buffer[j] == PushN(old(message[..]), j)[0]
    {
      buffer[i] := message[0];
      ShiftOne(message, NUL);
    }
  }

  /** fillBuffer leaves a message of two or more characters holding its rest followed by NULs. */
  lemma FillBufferRest(m: seq<char>, n: nat)
    requires |m| >= 2
    ensures PushN(m, n) == Window(Embed(m, 0), n, |m|)
  {
    WindowWhole(m);
    EmbedNulFrom(m, 0);
    PushNWindow(Embed(m, 0), 0, |m|, n);
  }

  /** fillBuffer puts message character i (NUL past the end) into buffer cell i. */
  lemma FillBufferHead(m: seq<char>, i: nat)
    requires |m| >= 2
    ensures PushN(m, i)[0] == At(m, i)
  {
    FillBufferRest(m, i);
    assert Window(Embed(m, 0), i, |m|)[0] == At(m, i);
  }

  /** Shifting never changes a one-cell array. */
  lemma {:induction false} PushNOfSingle(m: seq<char>, n: nat)
    requires |m| == 1
    ensures PushN(m, n) == m
  {
    if n > 0 {
      PushNOfSingle(m, n - 1);
    }
  }

  // ---------------------------------------------------------------------------
  // Searching the dictionary
  // ---------------------------------------------------------------------------

  /** 1 + the first position of x in a at k or after, or 0 when x does not occur there. */
  function PositionFrom(a: seq<char>, x: char, k: nat): (r: nat)
    requires k <= |a|
    ensures r == 0 || k < r <= |a|
    decreases |a| - k
  {
    if k == |a| then 0 else if a[k] == x then k + 1 else PositionFrom(a, x, k + 1)
  }

  /** PositionFrom is 0 exactly when x is absent from k on, and otherwise points just past the first x from k on. */
  lemma {:induction false} PositionFromSpec(a: seq<char>, x: char, k: nat)
    requires k <= |a|
    ensures var r := PositionFrom(a, x, k);
      (r == 0 <==> forall i :: k <= i < |a| ==> a[i] != x) &&
      (r > 0 ==> a[r - 1] == x && forall i :: k <= i < r - 1 ==> a[i] != x)
    decreases |a| - k
  {
    if k < |a| && a[k] != x {
      PositionFromSpec(a, x, k + 1);
    }
  }

  /** 1 + the first position of x in a, or 0 when x does not occur. */
  function Position(a: seq<char>, x: char): (r: nat)
    ensures r <= |a|
  {
    PositionFrom(a, x, 0)
  }

  /** Position is 0 exactly when x does not occur, and otherwise points just past the first x. */
  lemma PositionSpec(a: seq<char>, x: char)
    ensures var r := Position(a, x);
      (r == 0 <==> x !in a) &&
      (r > 0 ==> a[r - 1] == x && forall i :: 0 <= i < r - 1 ==> a[i] != x)
  {
    PositionFromSpec(a, x, 0);
    if x in a {
      var j :| 0 <= j < |a| && a[j] == x;
      assert a[j] == x;
    }
  }

  /** hasChar: the position of the symbol, counted from 1, or 0 when it is absent. */
  method HasChar(chars: array<char>, symbol: char) returns (r: nat)
    ensures r == Position(chars[..], symbol)
  {
    for i := 0 to chars.Length
      invariant PositionFrom(chars[..], symbol, i) == Position(chars[..], symbol)
    {
      if chars[i] == symbol {
        return i + 1;
      }
    }
    return 0;
  }

  /**
   * The end of the match between D from offset a on and B, counting from a
   * point k: the first index r >= k where the two differ, D ends or B ends.
   */
  function MatchFrom(D: seq<char>, a: nat, B: seq<char>, k: nat): (r: nat)
    requires a + k <= |D| && k <= |B|
    ensures k <= r && a + r <= |D| && r <= |B|
    decreases |D| - a - k
  {
    if a + k == |D| || k == |B| || D[a + k] != B[k] then k else MatchFrom(D, a, B, k + 1)
  }

  /** From k to MatchFrom the two agree, and there they differ unless one has ended. */
  lemma {:induction false} MatchFromSpec(D: seq<char>, a: nat, B: seq<char>, k: nat)
    requires a + k <= |D| && k <= |B|
    ensures var r := MatchFrom(D, a, B, k);
      (forall i :: k <= i < r ==> D[a + i] == B[i]) &&
      (a + r < |D| && r < |B| ==> D[a + r] != B[r])
    decreases |D| - a - k
  {
    if !(a + k == |D| || k == |B| || D[a + k] != B[k]) {
      MatchFromSpec(D, a, B, k + 1);
    }
  }

  /** How far D from offset a on agrees with B: the length of their longest common prefix. */
  function MatchLength(D: seq<char>, a: nat, B: seq<char>): (q: nat)
    requires a <= |D|
    ensures a + q <= |D| && q <= |B|
  {
    MatchFrom(D, a, B, 0)
  }

  /**
   * getSequenceLength: how far the dictionary from currentPosition on agrees
   * with the buffer, stopping at the end of the dictionary.
   */
  method GetSequenceLength(dictionary: array<char>, buffer: array<char>, currentPosition: nat) returns (q: nat)
    requires buffer.Length >= dictionary.Length
    ensures q == if currentPosition < dictionary.Length then MatchLength(dictionary[..], currentPosition, buffer[..]) else 0
  {
    var cp := currentPosition;
    var i := 0;
    while cp + i < dictionary.Length
      invariant i == 0 || cp + i < dictionary.Length
      invariant cp < dictionary.Length ==> MatchFrom(dictionary[..], cp, buffer[..], i) == MatchLength(dictionary[..], cp, buffer[..])
    {
      if dictionary[cp + i] != buffer[i] {
        return i;
      }
      if cp + i == dictionary.Length - 1 {
        return i + 1;
      }
      i := i + 1;
    }
    return 0;
  }

  // ---------------------------------------------------------------------------
  // Compression
  // ---------------------------------------------------------------------------

  /** One output unit: position, length and next character. */
  datatype Triad = Triad(p: nat, q: nat, c: char)

  /**
   * The triad for a dictionary D and a buffer B of the same length, with n
   * the character after the buffer: p is Position of the buffer's head in
   * D, q the match from there (0 when p is 0), c the character after the
   * match.  A match never runs past the dictionary, and q is 0 exactly when
   * p is.
   */
  function TriadFor(D: seq<char>, B: seq<char>, n: char): (tr: Triad)
    requires 1 <= |D| == |B|
    ensures tr.p <= |D| && tr.p + tr.q <= |D| + 1
  {
    var p := Position(D, B[0]);
    var q := if p == 0 then 0 else MatchLength(D, p - 1, B);
    Triad(p, q, if q < |B| then B[q] else n)
  }

  /**
   * What the triad says: p is 0 exactly when the buffer's head is not in
   * the dictionary and otherwise points just past its first occurrence; the
   * q dictionary characters from p - 1 on equal the first q of the buffer
   * and the next ones differ (unless the dictionary or the buffer has
   * ended); c is the buffer character after the match, or n past the buffer.
   */
  lemma TriadForSpec(D: seq<char>, B: seq<char>, n: char)
    requires 1 <= |D| == |B|
    ensures var tr := TriadFor(D, B, n);
      (tr.p == 0 <==> B[0] !in D) && (tr.q == 0 <==> tr.p == 0) &&
      (tr.p >= 1 ==> D[tr.p - 1] == B[0] && forall i :: 0 <= i < tr.p - 1 ==> D[i] != B[0]) &&
      (tr.p >= 1 ==> forall i :: 0 <= i < tr.q ==> D[tr.p - 1 + i] == B[i]) &&
      (tr.p >= 1 && tr.p - 1 + tr.q < |D| && tr.q < |B| ==> D[tr.p - 1 + tr.q] != B[tr.q]) &&
      tr.c == (if tr.q < |B| then B[tr.q] else n)
  {
    var p := Position(D, B[0]);
    PositionSpec(D, B[0]);
    if p >= 1 {
      MatchFromSpec(D, p - 1, B, 0);
      assert D[p - 1] == B[0];
    }
  }

  /** The triad written when the dictionary holds stream positions t … t + capacity - 1. */
  function Head(X: Stream, capacity: nat, t: int): (tr: Triad)
    requires capacity >= 1
    ensures tr.p <= capacity && tr.q <= capacity
  {
    TriadFor(Window(X, t, capacity), Window(X, t + capacity, capacity), X(t + 2 * capacity))
  }

  /** The q characters from dictionary position p - 1 on are the q characters that follow in the stream. */
  lemma HeadMatchWindow(X: Stream, capacity: nat, t: int)
    requires capacity >= 1
    ensures var tr := Head(X, capacity, t);
      tr.p >= 1 ==> Window(X, t + tr.p - 1, tr.q) == Window(X, t + capacity, tr.q)
  {
    var D, B, n := Window(X, t, capacity), Window(X, t + capacity, capacity), X(t + 2 * capacity);
    TriadForSpec(D, B, n);
    var tr := TriadFor(D, B, n);
    if tr.p >= 1 {
      WindowsAgree(X, t, t + capacity, capacity, tr.p - 1, tr.q);
    }
  }

  /** The character of the triad is the stream character after the q matched ones. */
  lemma HeadNextChar(X: Stream, capacity: nat, t: int)
    requires capacity >= 1
    ensures var tr := Head(X, capacity, t); tr.c == X(t + capacity + tr.q)
  {
    TriadForSpec(Window(X, t, capacity), Window(X, t + capacity, capacity), X(t + 2 * capacity));
  }

  /** q is 0 exactly when p is: a buffer head found in the dictionary matches at least itself. */
  lemma HeadBounds(X: Stream, capacity: nat, t: int)
    requires capacity >= 1
    ensures var tr := Head(X, capacity, t); tr.q == 0 <==> tr.p == 0
  {
    TriadForSpec(Window(X, t, capacity), Window(X, t + capacity, capacity), X(t + 2 * capacity));
  }

  /** Two windows that agree on q places from offsets a and 0 give equal windows of length q. */
  lemma WindowsAgree(X: Stream, f1: int, f2: int, len: nat, a: nat, q: nat)
    requires a + q <= len && q <= len
    requires forall i :: 0 <= i < q ==> Window(X, f1, len)[a + i] == Window(X, f2, len)[i]
    ensures Window(X, f1 + a, q) == Window(X, f2, q)
  {
    var W1, W2 := Window(X, f1 + a, q), Window(X, f2, q);
    forall i | 0 <= i < q
      ensures W1[i] == W2[i]
    {
      assert Window(X, f1, len)[a + i] == Window(X, f2, len)[i];
    }
  }

  /** The stream the compressor looks at: capacity NULs (the empty dictionary), then the message. */
  function Source(m: string, capacity: nat): Stream {
    Embed(m, capacity)
  }

  /** Stream position j is message character j - capacity. */
  lemma SourceAt(m: string, capacity: nat, j: int)
    ensures Source(m, capacity)(j) == At(m, j - capacity)
  {
  }

  /** The compressor's stream is NUL from the end of the message on. */
  lemma SourceNulFrom(m: string, capacity: nat, n: int)
    requires n >= capacity + |m|
    ensures NulFrom(Source(m, capacity), n)
  {
    EmbedNulFrom(m, capacity);
  }

  /** A stream NUL from n on is NUL from any later position on. */
  lemma NulFromLater(X: Stream, n: int, n': int)
    requires NulFrom(X, n) && n <= n'
    ensures NulFrom(X, n')
  {
  }

  /**
   * The triads written from the moment the dictionary holds positions
   * t … t + capacity - 1 of a stream that is NUL from n on: none once the
   * buffer's head is NUL; otherwise the triad for the buffer's head, then the
   * triads from q + 1 positions on.
   */
  function CompressFrom(X: Stream, n: nat, capacity: nat, t: nat): seq<Triad>
    requires capacity >= 1 && t <= n && NulFrom(X, n)
    decreases n - t
  {
    if X(t + capacity) == NUL then []
    else
      var tr := Head(X, capacity, t);
      [tr] + CompressFrom(X, n, capacity, t + tr.q + 1)
  }

  /** The triads the compressor writes for a message. */
  function Compressed(m: string, capacity: nat): seq<Triad>
    requires capacity >= 1
  {
    SourceNulFrom(m, capacity, capacity + |m|);
    CompressFrom(Source(m, capacity), capacity + |m|, capacity, 0)
  }

  /** CompressFrom while the buffer's head is not NUL: the head triad, then the triads from q + 1 positions on. */
  lemma CompressCons(X: Stream, n: nat, capacity: nat, t: nat)
    requires capacity >= 1 && t <= n && NulFrom(X, n) && X(t + capacity) != NUL
    ensures var tr := Head(X, capacity, t);
      t + tr.q + 1 <= n && CompressFrom(X, n, capacity, t) == [tr] + CompressFrom(X, n, capacity, t + tr.q + 1)
  {
  }

  /** The text of CompressFrom while the buffer's head is not NUL: the head triad's text, then the rest. */
  lemma RenderUnfold(X: Stream, n: nat, capacity: nat, t: nat)
    requires capacity >= 1 && t <= n && NulFrom(X, n) && X(t + capacity) != NUL
    ensures var tr := Head(X, capacity, t);
      t + tr.q + 1 <= n &&
      Render(CompressFrom(X, n, capacity, t)) == RenderTriad(tr) + Render(CompressFrom(X, n, capacity, t + tr.q + 1))
  {
    var tr := Head(X, capacity, t);
    CompressCons(X, n, capacity, t);
    RenderCons(tr, CompressFrom(X, n, capacity, t + tr.q + 1));
  }

  /** Integer.toString: the decimal numeral of n. */
  function Decimal(n: nat): (s: string)
    ensures |s| >= 1
  {
    if n < 10 then [('0' as int + n) as char] else Decimal(n / 10) + [('0' as int + n % 10) as char]
  }

  /** The text of a triad: p and q in decimal, then c. */
  function RenderTriad(tr: Triad): string {
    Decimal(tr.p) + Decimal(tr.q) + [tr.c]
  }

  /** The text of a list of triads. */
  function Render(ts: seq<Triad>): string {
    if ts == [] then [] else RenderTriad(ts[0]) + Render(ts[1..])
  }

  /** The text of a list starting with h. */
  lemma RenderCons(h: Triad, rest: seq<Triad>)
    ensures Render([h] + rest) == RenderTriad(h) + Render(rest)
  {
    assert ([h] + rest)[1..] == rest;
  }

  /** A triad within the bounds of a capacity. */
  predicate Bounded(tr: Triad, capacity: nat) {
    tr.p <= capacity && tr.q <= capacity && (tr.q == 0 <==> tr.p == 0)
  }

  /** Bounds of a list's head and tail are bounds of the list. */
  lemma BoundedCons(h: Triad, rest: seq<Triad>, capacity: nat)
    requires Bounded(h, capacity) && forall tr :: tr in rest ==> Bounded(tr, capacity)
    ensures forall tr :: tr in [h] + rest ==> Bounded(tr, capacity)
  {
  }

  /** Every triad written has 0 <= p <= capacity and q <= capacity, and q = 0 exactly when p = 0. */
  lemma {:induction false} TriadBounds(X: Stream, n: nat, capacity: nat, t: nat)
    requires capacity >= 1 && t <= n && NulFrom(X, n)
    ensures forall tr :: tr in CompressFrom(X, n, capacity, t) ==> Bounded(tr, capacity)
    decreases n - t
  {
    if X(t + capacity) != NUL {
      var h := Head(X, capacity, t);
      var t' := t + h.q + 1;
      CompressCons(X, n, capacity, t);
      HeadBounds(X, capacity, t);
      TriadBounds(X, n, capacity, t');
      BoundedCons(h, CompressFrom(X, n, capacity, t'), capacity);
    } else {
      assert CompressFrom(X, n, capacity, t) == [];
    }
  }

  /** The dictionary, buffer and message arrays are the windows onto the stream after t shifts. */
  ghost predicate Windows(dictionary: seq<char>, buffer: seq<char>, message: seq<char>, X: Stream, t: int, capacity: nat) {
    dictionary == Window(X, t, capacity) && buffer == Window(X, t + capacity, capacity) &&
    message == Window(X, t + 2 * capacity, |message|)
  }

  /** One three-array shift moves all windows one position on, when the message window already reaches the stream's NUL end. */
  lemma WindowsShift(d: seq<char>, b: seq<char>, msg: seq<char>, X: Stream, t: int, capacity: nat)
    requires capacity >= 2 && |msg| >= 2 && X(t + 2 * capacity + |msg|) == NUL
    requires Windows(d, b, msg, X, t, capacity)
    ensures Windows(Push(d, b[0]), Push(b, msg[0]), Push(msg, NUL), X, t + 1, capacity)
  {
    WindowStep(X, t, capacity);
    WindowStep(X, t + capacity, capacity);
    WindowStep(X, t + 2 * capacity, |msg|);
  }

  /** The dictionary after fillBuffer, all NUL, is the window at time 0. */
  lemma InitialDictionary(m: string, capacity: nat)
    ensures Nuls(capacity) == Window(Source(m, capacity), 0, capacity)
  {
    var D := Window(Source(m, capacity), 0, capacity);
    forall i | 0 <= i < capacity
      ensures D[i] == NUL
    {
      SourceAt(m, capacity, i);
    }
  }

  /** The buffer after fillBuffer, the first characters of the message, is the window at time 0. */
  lemma InitialBuffer(m: string, capacity: nat, b: seq<char>)
    requires |m| >= 2 && |b| == capacity
    requires forall i :: 0 <= i < capacity ==> b[i] == PushN(m, i)[0]
    ensures b == Window(Source(m, capacity), capacity, capacity)
  {
    var B := Window(Source(m, capacity), capacity, capacity);
    forall i | 0 <= i < capacity
      ensures B[i] == b[i]
    {
      SourceAt(m, capacity, capacity + i);
      FillBufferHead(m, i);
    }
  }

  /** The message after fillBuffer, its rest followed by NULs, is the window at time 0. */
  lemma InitialMessage(m: string, capacity: nat)
    requires |m| >= 2
    ensures PushN(m, capacity) == Window(Source(m, capacity), 2 * capacity, |m|)
  {
    FillBufferRest(m, capacity);
    var M, E := Window(Source(m, capacity), 2 * capacity, |m|), Window(Embed(m, 0), capacity, |m|);
    forall i | 0 <= i < |m|
      ensures M[i] == E[i]
    {
      SourceAt(m, capacity, 2 * capacity + i);
      assert E[i] == At(m, capacity + i);
    }
  }

  /** One three-array shift, moving the windows from time t to t + 1. */
  method ShiftStep(dictionary: array<char>, buffer: array<char>, messageChars: array<char>, ghost X: Stream, ghost t: int)
    requires dictionary != buffer && buffer != messageChars && dictionary != messageChars
    requires dictionary.Length == buffer.Length >= 2 && messageChars.Length >= 2
    requires NulFrom(X, t + 2 * buffer.Length + messageChars.Length)
    requires Windows(dictionary[..], buffer[..], messageChars[..], X, t, buffer.Length)
    modifies dictionary, buffer, messageChars
    ensures Windows(dictionary[..], buffer[..], messageChars[..], X, t + 1, buffer.Length)
  {
    WindowsShift(dictionary[..], buffer[..], messageChars[..], X, t, buffer.Length);
    ShiftLeft(dictionary, buffer, messageChars);
  }

  /** The parts of the head triad: Position of the buffer's head, the match from there, and the stream character after it. */
  lemma HeadParts(X: Stream, capacity: nat, t: int)
    requires capacity >= 1
    ensures var tr, D, B := Head(X, capacity, t), Window(X, t, capacity), Window(X, t + capacity, capacity);
      tr.p == Position(D, B[0]) &&
      tr.q == (if tr.p == 0 then 0 else MatchLength(D, tr.p - 1, B)) &&
      tr.c == X(t + capacity + tr.q)
  {
    HeadNextChar(X, capacity, t);
  }

  /** The do-while loop of compress, entered after a match of count >= 1 characters: count shifts. */
  method ShiftMatch(dictionary: array<char>, buffer: array<char>, messageChars: array<char>,
                    ghost X: Stream, ghost t: int, count: nat)
    requires dictionary != buffer && buffer != messageChars && dictionary != messageChars
    requires dictionary.Length == buffer.Length >= 2 && messageChars.Length >= 2 && count >= 1
    requires NulFrom(X, t + 2 * buffer.Length + messageChars.Length)
    requires Windows(dictionary[..], buffer[..], messageChars[..], X, t, buffer.Length)
    modifies dictionary, buffer, messageChars
    ensures Windows(dictionary[..], buffer[..], messageChars[..], X, t + count, buffer.Length)
  {
    var i := 0;
    ghost var u := t;
    ShiftStep(dictionary, buffer, messageChars, X, u);
    i, u := i + 1, u + 1;
    while i < count
      invariant 1 <= i <= count && u == t + i
      invariant Windows(dictionary[..], buffer[..], messageChars[..], X, u, buffer.Length)
    {
      NulFromLater(X, t + 2 * buffer.Length + messageChars.Length, u + 2 * buffer.Length + messageChars.Length);
      ShiftStep(dictionary, buffer, messageChars, X, u);
      i, u := i + 1, u + 1;
    }
  }

  /**
   * The search of compress: p from hasChar and, when p is not 0, q from
   * getSequenceLength; these are the p and q of the head triad.
   */
  method FindMatch(dictionary: array<char>, buffer: array<char>, ghost X: Stream, ghost t: int) returns (p: nat, q: nat)
    requires dictionary.Length == buffer.Length >= 1
    requires dictionary[..] == Window(X, t, buffer.Length) && buffer[..] == Window(X, t + buffer.Length, buffer.Length)
    ensures p == Head(X, buffer.Length, t).p && q == Head(X, buffer.Length, t).q
    ensures q == 0 <==> p == 0
  {
    HeadParts(X, buffer.Length, t);
    HeadBounds(X, buffer.Length, t);
    p := HasChar(dictionary, buffer[0]);
    q := 0;
    if p != 0 {
      q := GetSequenceLength(dictionary, buffer, p - 1);
    }
  }

  /**
   * The body of the compressor's loop without its output: the search, the
   * do-while loop of q shifts, the character after the match and the final
   * shift.
   */
  method CompressStep(dictionary: array<char>, buffer: array<char>, messageChars: array<char>,
                      ghost X: Stream, ghost t: int) returns (p: nat, q: nat, c: char)
    requires dictionary != buffer && buffer != messageChars && dictionary != messageChars
    requires dictionary.Length == buffer.Length >= 2 && messageChars.Length >= 2
    requires NulFrom(X, t + 2 * buffer.Length + messageChars.Length)
    requires Windows(dictionary[..], buffer[..], messageChars[..], X, t, buffer.Length)
    modifies dictionary, buffer, messageChars
    ensures Triad(p, q, c) == Head(X, buffer.Length, t)
    ensures Windows(dictionary[..], buffer[..], messageChars[..], X, t + q + 1, buffer.Length)
  {
    ghost var L := buffer.Length;
    p, q := FindMatch(dictionary, buffer, X, t);
    HeadNextChar(X, L, t);
    assert buffer[..][0] == X(t + L);
    c := buffer[0];
    if p != 0 {
      ShiftMatch(dictionary, buffer, messageChars, X, t, q);
      assert buffer[..][0] == X(t + q + L);
      c := buffer[0];
    }
    NulFromLater(X, t + 2 * L + messageChars.Length, t + q + 2 * L + messageChars.Length);
    ShiftStep(dictionary, buffer, messageChars, X, t + q);
  }

  /** The three appends of compress: p and q in decimal, then c. */
  method AppendTriad(encoded: string, p: nat, q: nat, c: char) returns (e: string)
    ensures e == encoded + RenderTriad(Triad(p, q, c))
  {
    e := encoded + Decimal(p);
    e := e + Decimal(q);
    e := e + [c];
  }

  /**
   * One round of the compressor's loop: the head triad is written and the
   * windows move past the match and the next character.
   */
  method CompressRound(dictionary: array<char>, buffer: array<char>, messageChars: array<char>, encoded: string,
                       ghost X: Stream, ghost n: nat, ghost t: nat, ghost all: string) returns (e: string, ghost t': nat)
    requires dictionary != buffer && buffer != messageChars && dictionary != messageChars
    requires dictionary.Length == buffer.Length >= 2 && messageChars.Length >= 2
    requires NulFrom(X, n) && n <= 2 * buffer.Length + messageChars.Length && t <= n
    requires Windows(dictionary[..], buffer[..], messageChars[..], X, t, buffer.Length) && buffer[0] != NUL
    requires Emitted(X, n, buffer.Length, t, encoded, all)
    modifies dictionary, buffer, messageChars
    ensures t < t' <= n
    ensures Windows(dictionary[..], buffer[..], messageChars[..], X, t', buffer.Length)
    ensures Emitted(X, n, buffer.Length, t', e, all)
  {
    assert buffer[..][0] == X(t + buffer.Length);
    NulFromLater(X, n, t + 2 * buffer.Length + messageChars.Length);
    var p, q, c := CompressStep(dictionary, buffer, messageChars, X, t);
    e := AppendTriad(encoded, p, q, c);
    t' := t + q + 1;
    OutputStep(X, n, buffer.Length, t, t', encoded, e, all);
  }

  /**
   * The main loop of compress, on arrays that are the windows onto a stream
   * X at time 0: while the buffer's head is not NUL, writes the head triad
   * and shifts past the match and the next character.
   */
  method CompressLoop(dictionary: array<char>, buffer: array<char>, messageChars: array<char>,
                      ghost X: Stream, ghost n: nat, ghost all: string) returns (encoded: string)
    requires dictionary != buffer && buffer != messageChars && dictionary != messageChars
    requires dictionary.Length == buffer.Length >= 2 && messageChars.Length >= 2
    requires NulFrom(X, n) && n <= 2 * buffer.Length + messageChars.Length
    requires Windows(dictionary[..], buffer[..], messageChars[..], X, 0, buffer.Length)
    requires Emitted(X, n, buffer.Length, 0, "", all)
    modifies dictionary, buffer, messageChars
    ensures encoded == all
  {
    encoded := "";
    ghost var t: nat := 0;
    while buffer[0] != NUL
      invariant t <= n
      invariant Windows(dictionary[..], buffer[..], messageChars[..], X, t, buffer.Length)
      invariant Emitted(X, n, buffer.Length, t, encoded, all)
      decreases n - t
    {
      encoded, t := CompressRound(dictionary, buffer, messageChars, encoded, X, n, t, all);
    }
    assert buffer[..][0] == X(t + buffer.Length);
    OutputEnd(X, n, buffer.Length, t, encoded, all);
  }

  /**
   * The output written before time t, followed by the text of the triads
   * from t on, is the whole text.  It is stated for every name of that text
   * so that the solver unfolds the triads only where a proof asks for them
   * (EmittedIs gives the plain equation).
   */
  ghost predicate Emitted(X: Stream, n: nat, capacity: nat, t: nat, e: string, all: string)
    requires capacity >= 1 && t <= n && NulFrom(X, n)
  {
    forall rest :: rest == Render(CompressFrom(X, n, capacity, t)) ==> e + rest == all
  }

  /** Emitted says that e followed by the text of the triads from t on is the whole text. */
  lemma EmittedIs(X: Stream, n: nat, capacity: nat, t: nat, e: string, all: string)
    requires capacity >= 1 && t <= n && NulFrom(X, n)
    ensures Emitted(X, n, capacity, t, e, all) <==> e + Render(CompressFrom(X, n, capacity, t)) == all
  {
  }

  /** Before the loop nothing is written and every triad is still to come. */
  lemma OutputStart(X: Stream, n: nat, capacity: nat, all: string)
    requires capacity >= 1 && NulFrom(X, n) && all == Render(CompressFrom(X, n, capacity, 0))
    ensures Emitted(X, n, capacity, 0, "", all)
  {
    assert "" + Render(CompressFrom(X, n, capacity, 0)) == all;
    EmittedIs(X, n, capacity, 0, "", all);
  }

  /** Once the buffer's head is NUL no triads remain, so the output is the whole text. */
  lemma OutputEnd(X: Stream, n: nat, capacity: nat, t: nat, e: string, all: string)
    requires capacity >= 1 && t <= n && NulFrom(X, n) && X(t + capacity) == NUL
    requires Emitted(X, n, capacity, t, e, all)
    ensures e == all
  {
    EmittedIs(X, n, capacity, t, e, all);
    assert CompressFrom(X, n, capacity, t) == [];
    assert e + [] == e;
  }

  /** Appending the head triad's text keeps the output plus the text still to come equal to the whole text. */
  lemma OutputStep(X: Stream, n: nat, capacity: nat, t: nat, t': nat, e0: string, e: string, all: string)
    requires capacity >= 1 && t <= n && NulFrom(X, n) && X(t + capacity) != NUL
    requires Emitted(X, n, capacity, t, e0, all)
    requires t' == t + Head(X, capacity, t).q + 1 && e == e0 + RenderTriad(Head(X, capacity, t))
    ensures t' <= n && Emitted(X, n, capacity, t', e, all)
  {
    var w, rest := RenderTriad(Head(X, capacity, t)), Render(CompressFrom(X, n, capacity, t'));
    RenderUnfold(X, n, capacity, t);
    EmittedIs(X, n, capacity, t, e0, all);
    AppendAssoc(e0, w, rest);
    EmittedIs(X, n, capacity, t', e, all);
  }

  /**
   * The set-up of compress: a dictionary of NULs, a buffer filled from the
   * message and the rest of the message, which are the windows onto the
   * message's stream at time 0.
   */
  method CompressArrays(message: string, capacity: nat) returns (dictionary: array<char>, buffer: array<char>, messageChars: array<char>)
    requires capacity >= 2 && |message| >= 2
    ensures fresh(dictionary) && fresh(buffer) && fresh(messageChars)
    ensures dictionary != buffer && buffer != messageChars && dictionary != messageChars
    ensures dictionary.Length == buffer.Length == capacity && messageChars.Length == |message|
    ensures Windows(dictionary[..], buffer[..], messageChars[..], Source(message, capacity), 0, capacity)
  {
    dictionary := new char[capacity](_ => NUL);
    buffer := new char[capacity](_ => NUL);
    messageChars := new char[|message|](i requires 0 <= i < |message| => message[i]);
    assert messageChars[..] == message;
    assert dictionary[..] == Nuls(capacity);
    FillBuffer(buffer, messageChars);
    InitialDictionary(message, capacity);
    InitialBuffer(message, capacity, buffer[..]);
    InitialMessage(message, capacity);
  }

  /**
   * compress: fills the buffer from the message, then runs the main loop.
   * With a capacity below 2 or a message shorter than 2 the Java loop never
   * ends or fails, so both are required.
   */
  method Compress(message: string, capacity: nat) returns (encoded: string)
    requires capacity >= 2 && |message| >= 2
    ensures encoded == Render(Compressed(message, capacity))
  {
    var dictionary, buffer, messageChars := CompressArrays(message, capacity);
    SourceNulFrom(message, capacity, capacity + |message|);
    ghost var all := Render(Compressed(message, capacity));
    OutputStart(Source(message, capacity), capacity + |message|, capacity, all);
    encoded := CompressLoop(dictionary, buffer, messageChars, Source(message, capacity), capacity + |message|, all);
  }

  // ---------------------------------------------------------------------------
  // Decompression
  // ---------------------------------------------------------------------------

  /** Integer.parseInt of a one-character string: the value of an ASCII digit, none otherwise. */
  function ParseDigit(ch: char): Option<nat> {
    if '0' <= ch <= '9' then Some(ch as nat - '0' as nat) else None
  }

  /** The decompressor's buffer and the text decoded so far. */
  datatype DecoderState = DecoderState(buffer: seq<char>, decoded: string)

  /** One emitting shift that takes y into the last cell. */
  function Step(s: DecoderState, y: char): (r: DecoderState)
    requires |s.buffer| >= 1
    ensures |r.buffer| == |s.buffer|
  {
    DecoderState(s.buffer[1..] + [y], s.decoded + Front(s.buffer))
  }

  /** The copy loop of decodeTriadInBuffer: q times, take in buffer[p - 1]; none if p - 1 is outside the buffer. */
  function CopyFrom(s: DecoderState, p: nat, q: nat): (r: Option<DecoderState>)
    requires |s.buffer| >= 1
    ensures r.Some? ==> |r.value.buffer| == |s.buffer|
    decreases q
  {
    if q == 0 then Some(s)
    else if p == 0 || p > |s.buffer| then None
    else CopyFrom(Step(s, s.buffer[p - 1]), p, q - 1)
  }

  /** decodeTriadInBuffer: the copies, then c. */
  function DecodeTriad(s: DecoderState, p: nat, q: nat, c: char): (r: Option<DecoderState>)
    requires |s.buffer| >= 1
    ensures r.Some? ==> |r.value.buffer| == |s.buffer|
  {
    match CopyFrom(s, p, q)
    case None => None
    case Some(s') => Some(Step(s', c))
  }

  /** The characters of s before its first NUL. */
  function TakeNonNul(s: seq<char>): (r: string)
    ensures |r| <= |s|
  {
    if s == [] || s[0] == NUL then [] else [s[0]] + TakeNonNul(s[1..])
  }

  /**
   * The decompressor's state after the triads from k on: done when the text
   * (followed by NULs) has a NUL at position 3k; otherwise the triad at 3k
   * is parsed and decoded.  None where the Java code throws.
   */
  function DecodeFrom(text: string, capacity: nat, k: nat, s: DecoderState): (r: Option<DecoderState>)
    requires |s.buffer| == capacity >= 1
    ensures r.Some? ==> |r.value.buffer| == capacity
    decreases |text| - 3 * k
  {
    if At(text, 3 * k) == NUL then Some(s)
    else if |text| < 3 then None
    else
      match (ParseDigit(At(text, 3 * k)), ParseDigit(At(text, 3 * k + 1)))
      case (Some(p), Some(q)) =>
        (match DecodeTriad(s, p, q, At(text, 3 * k + 2))
         case None => None
         case Some(s') => DecodeFrom(text, capacity, k + 1, s'))
      case _ => None
  }

  /** The decoder's output once its buffer has been flushed up to its first NUL. */
  function Flushed(s: DecoderState): string {
    s.decoded + TakeNonNul(s.buffer)
  }

  /** The decompressor's result from triad k on: the final state, flushed. */
  function DecompressFrom(text: string, capacity: nat, k: nat, s: DecoderState): Option<string>
    requires |s.buffer| == capacity >= 1
  {
    match DecodeFrom(text, capacity, k, s)
    case None => None
    case Some(f) => Some(Flushed(f))
  }

  /** What decompress makes of a text: none for the empty text, whose first character it cannot read. */
  function DecompressText(text: string, capacity: nat): Option<string>
    requires capacity >= 1
  {
    if |text| == 0 then None else DecompressFrom(text, capacity, 0, DecoderState(Nuls(capacity), ""))
  }

  /** decodeTriadInBuffer on the arrays: the model's DecodeTriad, then the text shifts three places. */
  method DecodeTriadInBuffer(buffer: array<char>, message: array<char>, decodedMessage: string,
                             p: nat, q: nat, c: char) returns (result: Option<string>)
    requires buffer != message && buffer.Length >= 1
    modifies buffer, message
    ensures var r := DecodeTriad(DecoderState(old(buffer[..]), decodedMessage), p, q, c);
      (result.None? <==> r.None?) &&
      (r.Some? ==> result == Some(r.value.decoded) && buffer[..] == r.value.buffer &&
                   message[..] == PushN(old(message[..]), 3))
  {
    ghost var s0 := DecoderState(buffer[..], decodedMessage);
    var decoded := decodedMessage;
    if p != 0 || q != 0 {
      for i := 0 to q
        invariant buffer.Length == |s0.buffer| && message[..] == old(message[..])
        invariant CopyFrom(s0, p, q) == CopyFrom(DecoderState(buffer[..], decoded), p, q - i)
      {
        if p == 0 || p > buffer.Length {
          return None;
        }
        var buf := buffer[p - 1];
        decoded := EmitAndTake(buffer, decoded, buf);
      }
    }
    decoded := EmitAndTake(buffer, decoded, c);
    ShiftLeftBy(message, 3);
    result := Some(decoded);
  }

  /** An emitting shift followed by a write of y into the last cell: the model's Step. */
  method EmitAndTake(buffer: array<char>, decodedMessage: string, y: char) returns (decoded: string)
    requires buffer.Length >= 1
    modifies buffer
    ensures Step(DecoderState(old(buffer[..]), decodedMessage), y) == DecoderState(buffer[..], decoded)
  {
    ghost var A := buffer[..];
    decoded := ShiftLeftToDecodedMessage(buffer, decodedMessage, 1);
    assert EmitN(A, 1) == Front(A) by {
      assert PushN(A, 0) == A;
    }
    buffer[buffer.Length - 1] := y;
    assert buffer[..] == A[1..] + [y];
  }

  /** Decoding the text from triad k on, from state s, gives want. */
  ghost predicate Pending(text: string, capacity: nat, k: nat, s: DecoderState, want: Option<string>)
    requires |s.buffer| == capacity >= 1
  {
    DecompressFrom(text, capacity, k, s) == want
  }

  /** Everything decompress does starts from an empty buffer at triad 0. */
  lemma DecodeStart(text: string, capacity: nat)
    requires capacity >= 1 && |text| > 0
    ensures Pending(text, capacity, 0, DecoderState(Nuls(capacity), ""), DecompressText(text, capacity))
  {
  }

  /** At a NUL the decoding ends with the output and the buffer up to its first NUL. */
  lemma DecodeEnd(text: string, capacity: nat, k: nat, s: DecoderState, want: Option<string>)
    requires |s.buffer| == capacity >= 1 && At(text, 3 * k) == NUL
    requires Pending(text, capacity, k, s, want)
    ensures want == Some(s.decoded + TakeNonNul(s.buffer))
  {
  }

  /** A triad that cannot be read or decoded makes the whole decoding fail. */
  lemma DecodeFail(text: string, capacity: nat, k: nat, s: DecoderState, want: Option<string>)
    requires |s.buffer| == capacity >= 1 && At(text, 3 * k) != NUL
    requires Pending(text, capacity, k, s, want)
    requires |text| < 3 || ParseDigit(At(text, 3 * k)).None? || ParseDigit(At(text, 3 * k + 1)).None? ||
             DecodeTriad(s, ParseDigit(At(text, 3 * k)).value, ParseDigit(At(text, 3 * k + 1)).value, At(text, 3 * k + 2)).None?
    ensures want.None?
  {
  }

  /** A triad that is read and decoded moves the decoding on to the next triad. */
  lemma DecodeNext(text: string, capacity: nat, k: nat, s: DecoderState, want: Option<string>, p: nat, q: nat, s': DecoderState)
    requires |s.buffer| == capacity >= 1 && At(text, 3 * k) != NUL && |text| >= 3
    requires Pending(text, capacity, k, s, want)
    requires ParseDigit(At(text, 3 * k)) == Some(p) && ParseDigit(At(text, 3 * k + 1)) == Some(q)
    requires DecodeTriad(s, p, q, At(text, 3 * k + 2)) == Some(s')
    ensures Pending(text, capacity, k + 1, s', want)
  {
  }

  /**
   * One round of the decompressor's first loop, at a triad whose first
   * character is not NUL: reads p, q and c and decodes them into the buffer.
   * ok is false where the Java code throws.
   */
  method DecodeRound(buffer: array<char>, messageChars: array<char>, decoded: string,
                     ghost text: string, ghost k: nat, ghost want: Option<string>) returns (ok: bool, decoded': string)
    requires buffer != messageChars && buffer.Length >= 1 && messageChars.Length == |text| >= 1
    requires messageChars[..] == Window(Embed(text, 0), 3 * k, |text|) && messageChars[0] != NUL
    requires Pending(text, buffer.Length, k, DecoderState(buffer[..], decoded), want)
    modifies buffer, messageChars
    ensures !ok ==> want.None?
    ensures ok ==> 3 * k < |text| && messageChars[..] == Window(Embed(text, 0), 3 * (k + 1), |text|)
    ensures ok ==> Pending(text, buffer.Length, k + 1, DecoderState(buffer[..], decoded'), want)
  {
    ghost var s := DecoderState(buffer[..], decoded);
    decoded' := decoded;
    assert messageChars[..][0] == At(text, 3 * k);
    ghost var head := At(text, 3 * k);
    assert head != NUL;
    if messageChars.Length < 3 {
      DecodeFail(text, buffer.Length, k, s, want);
      return false, decoded';
    }
    assert messageChars[..][1] == At(text, 3 * k + 1) && messageChars[..][2] == At(text, 3 * k + 2);
    var p := ParseDigit(messageChars[0]);
    var q := ParseDigit(messageChars[1]);
    if p.None? || q.None? {
      DecodeFail(text, buffer.Length, k, s, want);
      return false, decoded';
    }
    var c := messageChars[2];
    var r := DecodeTriadInBuffer(buffer, messageChars, decoded, p.value, q.value, c);
    if r.None? {
      DecodeFail(text, buffer.Length, k, s, want);
      return false, decoded';
    }
    decoded' := r.value;
    EmbedNulFrom(text, 0);
    PushNWindow(Embed(text, 0), 3 * k, |text|, 3);
    DecodeNext(text, buffer.Length, k, s, want, p.value, q.value, DecoderState(buffer[..], decoded'));
    ok := true;
  }

  /** The final loop of decompress: emits the buffer's characters up to its first NUL. */
  method Flush(buffer: array<char>, decodedMessage: string) returns (decoded: string)
    requires buffer.Length >= 2
    modifies buffer
    ensures decoded == decodedMessage + TakeNonNul(old(buffer[..]))
  {
    decoded := decodedMessage;
    while buffer[0] != NUL
      invariant decoded + TakeNonNul(buffer[..]) == decodedMessage + TakeNonNul(old(buffer[..]))
      decreases |TakeNonNul(buffer[..])|
    {
      ghost var A := buffer[..];
      ghost var d0 := decoded;
      decoded := ShiftLeftToDecodedMessage(buffer, decoded, 1);
      FlushStep(A);
      AppendAssoc(d0, EmitN(A, 1), TakeNonNul(buffer[..]));
    }
    assert buffer[..][0] == NUL;
    assert decoded + [] == decoded;
  }

  /**
   * decompress: decodes the triads until the text's head is NUL, then
   * empties the buffer up to its first NUL.  With a capacity of 1 the final
   * loop never ends on a full buffer, so a capacity of 2 or more is required.
   */
  method Decompress(message: string, bufferCapacity: nat) returns (result: Option<string>)
    requires bufferCapacity >= 2
    ensures result == DecompressText(message, bufferCapacity)
  {
    var messageChars := new char[|message|](i requires 0 <= i < |message| => message[i]);
    var buffer := new char[bufferCapacity](_ => NUL);
    var decoded := "";
    if messageChars.Length == 0 {
      return None;
    }
    ghost var want := DecompressText(message, bufferCapacity);
    WindowWhole(message);
    assert messageChars[..] == Window(Embed(message, 0), 0, |message|);
    assert buffer[..] == Nuls(bufferCapacity);
    DecodeStart(message, bufferCapacity);
    ghost var k := 0;
    while messageChars[0] != NUL
      invariant buffer.Length == bufferCapacity && messageChars.Length == |message| && 3 * k <= |message| + 2
      invariant messageChars[..] == Window(Embed(message, 0), 3 * k, |message|)
      invariant Pending(message, bufferCapacity, k, DecoderState(buffer[..], decoded), want)
      decreases |message| + 2 - 3 * k
    {
      var ok;
      ok, decoded := DecodeRound(buffer, messageChars, decoded, message, k, want);
      if !ok {
        return None;
      }
      k := k + 1;
    }
    assert messageChars[..][0] == At(message, 3 * k);
    DecodeEnd(message, bufferCapacity, k, DecoderState(buffer[..], decoded), want);
    decoded := Flush(buffer, decoded);
    result := Some(decoded);
  }

  /** One emitting shift of a buffer whose head is not NUL moves that head to the output. */
  lemma FlushStep(A: seq<char>)
    requires |A| >= 2 && A[0] != NUL
    ensures EmitN(A, 1) + TakeNonNul(PushN(A, 1)) == TakeNonNul(A)
    ensures |TakeNonNul(PushN(A, 1))| < |TakeNonNul(A)|
  {
    assert PushN(A, 0) == A;
    assert EmitN(A, 1) == [A[0]];
    assert PushN(A, 1) == A[1..] + [NUL];
    TakeNonNulNul(A[1..]);
    assert TakeNonNul(A) == [A[0]] + TakeNonNul(A[1..]);
  }

  /** A NUL appended after s does not change what comes before the first NUL. */
  lemma {:induction false} TakeNonNulNul(s: seq<char>)
    ensures TakeNonNul(s + [NUL]) == TakeNonNul(s)
  {
    if s != [] && s[0] != NUL {
      assert (s + [NUL])[1..] == s[1..] + [NUL];
      TakeNonNulNul(s[1..]);
    }
  }

  // ---------------------------------------------------------------------------
  // The round trip
  // ---------------------------------------------------------------------------

  /** A message without NUL characters. */
  predicate NulFree(s: seq<char>) {
    forall i :: 0 <= i < |s| ==> s[i] != NUL
  }

  /** The non-NUL characters of s, in order. */
  function NonNul(s: seq<char>): string {
    if s == [] then [] else NonNul(s[..|s| - 1]) + (if s[|s| - 1] != NUL then [s[|s| - 1]] else [])
  }

  /** NonNul maps concatenation to concatenation. */
  lemma {:induction false} NonNulAppend(a: seq<char>, b: seq<char>)
    ensures NonNul(a + b) == NonNul(a) + NonNul(b)
  {
    if b == [] {
      assert a + b == a;
    } else {
      var n := |b| - 1;
      assert (a + b)[..|a| + n] == a + b[..n];
      NonNulAppend(a, b[..n]);
    }
  }

  /** NonNul of NULs is empty, and of a NUL-free word is the word. */
  lemma {:induction false} NonNulCases(n: nat, s: seq<char>)
    requires NulFree(s)
    ensures NonNul(Nuls(n)) == [] && NonNul(s) == s
  {
    if n > 0 {
      assert Nuls(n)[..n - 1] == Nuls(n - 1);
      NonNulCases(n - 1, []);
    }
    if s != [] {
      NonNulCases(0, s[..|s| - 1]);
    }
  }

  /** A NUL-free word followed by NULs: everything before the first NUL is the word. */
  lemma {:induction false} TakeNonNulPadded(s: seq<char>, n: nat)
    requires NulFree(s)
    ensures TakeNonNul(s + Nuls(n)) == s
  {
    if s == [] {
      assert s + Nuls(n) == Nuls(n);
      if n > 0 {
        assert Nuls(n)[0] == NUL;
      }
    } else {
      assert (s + Nuls(n))[1..] == s[1..] + Nuls(n);
      TakeNonNulPadded(s[1..], n);
    }
  }

  /** The decoder's state after the stream's first t characters have been taken into its buffer. */
  function StreamState(X: Stream, t: nat, capacity: nat): DecoderState {
    DecoderState(Window(X, t, capacity), NonNul(Window(X, 0, t)))
  }

  /** Taking in the next stream character moves the decoder's state on by one. */
  lemma StepAlongStream(X: Stream, t: nat, capacity: nat)
    requires capacity >= 1
    ensures Step(StreamState(X, t, capacity), X(t + capacity)) == StreamState(X, t + 1, capacity)
  {
    WindowStep(X, t, capacity);
    assert Window(X, 0, t + 1)[..t] == Window(X, 0, t);
  }

  /** Copying from a position that matches the coming stream characters takes those characters in. */
  lemma {:induction false} CopyAlongStream(X: Stream, t: nat, capacity: nat, p: nat, q: nat)
    requires capacity >= 1 && 1 <= p && p - 1 + q <= capacity
    requires Window(X, t + p - 1, q) == Window(X, t + capacity, q)
    ensures CopyFrom(StreamState(X, t, capacity), p, q) == Some(StreamState(X, t + q, capacity))
    decreases q
  {
    if q > 0 {
      var s := StreamState(X, t, capacity);
      assert s.buffer[p - 1] == Window(X, t + p - 1, q)[0];
      assert Window(X, t + p - 1, q)[0] == Window(X, t + capacity, q)[0];
      StepAlongStream(X, t, capacity);
      assert Window(X, t + 1 + p - 1, q - 1) == Window(X, t + p - 1, q)[1..];
      assert Window(X, t + 1 + capacity, q - 1) == Window(X, t + capacity, q)[1..];
      CopyAlongStream(X, t + 1, capacity, p, q - 1);
    }
  }

  /** The triad written at time t, decoded from the decoder's state at time t, gives its state at time t + q + 1. */
  lemma TriadAlongStream(X: Stream, capacity: nat, t: nat)
    requires capacity >= 1
    ensures var tr := Head(X, capacity, t);
      DecodeTriad(StreamState(X, t, capacity), tr.p, tr.q, tr.c) == Some(StreamState(X, t + tr.q + 1, capacity))
  {
    var tr := Head(X, capacity, t);
    HeadMatchWindow(X, capacity, t);
    HeadNextChar(X, capacity, t);
    if tr.p >= 1 {
      CopyAlongStream(X, t, capacity, tr.p, tr.q);
    }
    StepAlongStream(X, t + tr.q, capacity);
  }

  /** The digits a triad is written with when p and q are single digits. */
  lemma RenderTriadDigits(tr: Triad)
    requires tr.p <= 9 && tr.q <= 9
    ensures |RenderTriad(tr)| == 3
    ensures ParseDigit(RenderTriad(tr)[0]) == Some(tr.p) && ParseDigit(RenderTriad(tr)[1]) == Some(tr.q)
    ensures RenderTriad(tr)[0] != NUL && RenderTriad(tr)[2] == tr.c
  {
  }

  /** The time at which the compressor, started at time t, stops: the first time its buffer's head is NUL. */
  function StopTime(X: Stream, n: nat, capacity: nat, t: nat): (T: nat)
    requires capacity >= 1 && t <= n && NulFrom(X, n)
    ensures t <= T <= n && X(T + capacity) == NUL
    decreases n - t
  {
    if X(t + capacity) == NUL then t
    else StopTime(X, n, capacity, t + Head(X, capacity, t).q + 1)
  }

  /** The decompressor reading a triad's text moves from state s to the state DecodeTriad gives. */
  lemma DecodeStep(text: string, capacity: nat, k: nat, s: DecoderState, s': DecoderState, tr: Triad)
    requires |s.buffer| == capacity >= 1 && tr.p <= 9 && tr.q <= 9
    requires 3 * k + 3 <= |text| && text[3 * k..3 * k + 3] == RenderTriad(tr)
    requires DecodeTriad(s, tr.p, tr.q, tr.c) == Some(s')
    ensures DecodeFrom(text, capacity, k, s) == DecodeFrom(text, capacity, k + 1, s')
  {
    var w := RenderTriad(tr);
    RenderTriadDigits(tr);
    assert At(text, 3 * k) == w[0] && At(text, 3 * k + 1) == w[1] && At(text, 3 * k + 2) == w[2];
  }

  /**
   * Decoding the text of the triads written from time t on, placed after k
   * triads' worth of text, from the decoder's state at time t, ends in the
   * decoder's state at the compressor's stopping time.
   */
  lemma {:induction false} DecodesFrom(X: Stream, n: nat, capacity: nat, t: nat, text: string, pre: string, k: nat)
    requires 2 <= capacity <= 9 && t <= n && NulFrom(X, n)
    requires |pre| == 3 * k && text == pre + Render(CompressFrom(X, n, capacity, t))
    ensures DecodeFrom(text, capacity, k, StreamState(X, t, capacity))
         == Some(StreamState(X, StopTime(X, n, capacity, t), capacity))
    decreases n - t
  {
    if X(t + capacity) == NUL {
      DecodesFromEnd(X, n, capacity, t, text, pre, k);
    } else {
      var t', pre' := TextSplit(X, n, capacity, t, text, pre, k);
      DecodesFrom(X, n, capacity, t', text, pre', k + 1);
      DecodesFromStep(X, n, capacity, t, text, k);
    }
  }

  /** DecodesFrom when the compressor stops at time t. */
  lemma DecodesFromEnd(X: Stream, n: nat, capacity: nat, t: nat, text: string, pre: string, k: nat)
    requires 2 <= capacity <= 9 && t <= n && NulFrom(X, n) && X(t + capacity) == NUL
    requires |pre| == 3 * k && text == pre + Render(CompressFrom(X, n, capacity, t))
    ensures DecodeFrom(text, capacity, k, StreamState(X, t, capacity))
         == Some(StreamState(X, StopTime(X, n, capacity, t), capacity))
  {
    assert text == pre;
    DecodesEnd(text, capacity, k, StreamState(X, t, capacity));
  }

  /** The text from time t on is the head triad's text followed by the text from the time after it. */
  lemma TextSplit(X: Stream, n: nat, capacity: nat, t: nat, text: string, pre: string, k: nat) returns (t': nat, pre': string)
    requires 2 <= capacity <= 9 && t <= n && NulFrom(X, n) && X(t + capacity) != NUL
    requires |pre| == 3 * k && text == pre + Render(CompressFrom(X, n, capacity, t))
    ensures t' == t + Head(X, capacity, t).q + 1 && t' <= n
    ensures pre' == pre + RenderTriad(Head(X, capacity, t)) && |pre'| == 3 * (k + 1)
    ensures text == pre' + Render(CompressFrom(X, n, capacity, t'))
    ensures 3 * k + 3 <= |text| && text[3 * k..3 * k + 3] == RenderTriad(Head(X, capacity, t))
  {
    var tr := Head(X, capacity, t);
    t' := t + tr.q + 1;
    RenderUnfold(X, n, capacity, t);
    RenderTriadDigits(tr);
    pre' := pre + RenderTriad(tr);
    AppendAssoc(pre, RenderTriad(tr), Render(CompressFrom(X, n, capacity, t')));
    assert text[3 * k..3 * k + 3] == pre'[3 * k..];
  }

  /** The decoder's result from time t is its result from the time after the head triad. */
  lemma DecodesFromStep(X: Stream, n: nat, capacity: nat, t: nat, text: string, k: nat)
    requires 2 <= capacity <= 9 && t <= n && NulFrom(X, n) && X(t + capacity) != NUL
    requires 3 * k + 3 <= |text| && text[3 * k..3 * k + 3] == RenderTriad(Head(X, capacity, t))
    ensures var t' := t + Head(X, capacity, t).q + 1;
      t' <= n &&
      DecodeFrom(text, capacity, k, StreamState(X, t, capacity)) == DecodeFrom(text, capacity, k + 1, StreamState(X, t', capacity)) &&
      StopTime(X, n, capacity, t) == StopTime(X, n, capacity, t')
  {
    var tr := Head(X, capacity, t);
    TriadAlongStream(X, capacity, t);
    DecodeStep(text, capacity, k, StreamState(X, t, capacity), StreamState(X, t + tr.q + 1, capacity), tr);
    StopTimeStep(X, n, capacity, t);
  }

  /** With the text used up, the decompressor stops in the state it is in. */
  lemma DecodesEnd(text: string, capacity: nat, k: nat, s: DecoderState)
    requires |s.buffer| == capacity >= 1 && |text| == 3 * k
    ensures DecodeFrom(text, capacity, k, s) == Some(s)
  {
  }

  /** While the buffer's head is not NUL, the stopping time is that of the time after the head triad. */
  lemma StopTimeStep(X: Stream, n: nat, capacity: nat, t: nat)
    requires capacity >= 1 && t <= n && NulFrom(X, n) && X(t + capacity) != NUL
    ensures var t' := t + Head(X, capacity, t).q + 1;
      t' <= n && StopTime(X, n, capacity, t) == StopTime(X, n, capacity, t')
  {
  }

  /** Before the stopping time the decoder has output the message characters the dictionary has passed. */
  lemma FinalPrefix(m: string, capacity: nat, t: nat)
    requires NulFree(m) && capacity <= t <= |m| + capacity
    ensures NonNul(Window(Source(m, capacity), 0, t)) == m[..t - capacity]
  {
    var k := t - capacity;
    var Before := Window(Source(m, capacity), 0, t);
    forall i | 0 <= i < t
      ensures Before[i] == (Nuls(capacity) + m[..k])[i]
    {
      SourceAt(m, capacity, i);
    }
    assert Before == Nuls(capacity) + m[..k];
    NonNulAppend(Nuls(capacity), m[..k]);
    NonNulCases(capacity, m[..k]);
  }

  /** At the stopping time the decoder's buffer holds the rest of the message, then NULs. */
  lemma FinalBuffer(m: string, capacity: nat, t: nat)
    requires NulFree(m) && capacity <= t && |m| <= t <= |m| + capacity
    ensures TakeNonNul(Window(Source(m, capacity), t, capacity)) == m[t - capacity..]
  {
    var k := t - capacity;
    var After := Window(Source(m, capacity), t, capacity);
    forall i | 0 <= i < capacity
      ensures After[i] == (m[k..] + Nuls(t - |m|))[i]
    {
      SourceAt(m, capacity, t + i);
    }
    assert After == m[k..] + Nuls(t - |m|);
    TakeNonNulPadded(m[k..], t - |m|);
  }

  /** When the compressor stops on a message at least as long as the capacity, the flushed decoder holds the message. */
  lemma FinalOutput(m: string, capacity: nat, t: nat)
    requires NulFree(m) && 1 <= capacity <= |m| && t <= |m| + capacity && At(m, t) == NUL
    ensures Flushed(StreamState(Source(m, capacity), t, capacity)) == m
  {
    assert t >= |m|;
    FinalPrefix(m, capacity, t);
    FinalBuffer(m, capacity, t);
    assert m[..t - capacity] + m[t - capacity..] == m;
  }

  /**
   * For any stream that starts with a dictionary of NULs and a buffer whose
   * head is not NUL, decoding the text of its triads from an empty buffer
   * ends in the decoder's state at the compressor's stopping time.
   */
  lemma DecodesStreamState(X: Stream, n: nat, capacity: nat)
    requires 2 <= capacity <= 9 && NulFrom(X, n) && X(capacity) != NUL && Window(X, 0, capacity) == Nuls(capacity)
    ensures var text := Render(CompressFrom(X, n, capacity, 0));
      |text| > 0 && DecodeFrom(text, capacity, 0, DecoderState(Nuls(capacity), "")) == Some(StreamState(X, StopTime(X, n, capacity, 0), capacity))
  {
    assert Window(X, 0, 0) == [];
    assert StreamState(X, 0, capacity) == DecoderState(Nuls(capacity), "");
    var text := Render(CompressFrom(X, n, capacity, 0));
    RenderUnfold(X, n, capacity, 0);
    assert text == [] + text;
    DecodesFrom(X, n, capacity, 0, text, [], 0);
  }

  /** Decompressing the text of such a stream gives the decoder's flushed state at the stopping time. */
  lemma DecodesStream(X: Stream, n: nat, capacity: nat, m: string)
    requires 2 <= capacity <= 9 && NulFrom(X, n) && X(capacity) != NUL && Window(X, 0, capacity) == Nuls(capacity)
    requires Flushed(StreamState(X, StopTime(X, n, capacity, 0), capacity)) == m
    ensures DecompressText(Render(CompressFrom(X, n, capacity, 0)), capacity) == Some(m)
  {
    DecodesStreamState(X, n, capacity);
  }

  /**
   * The round trip: for a NUL-free message at least as long as the capacity,
   * with a capacity from 2 to 9 (so that p and q are single digits),
   * decompressing the compressed text gives the message back.
   */
  lemma DecompressCompress(m: string, capacity: nat)
    requires NulFree(m) && 2 <= capacity <= 9 && capacity <= |m|
    ensures DecompressText(Render(Compressed(m, capacity)), capacity) == Some(m)
  {
    DecodesMessage(m, capacity);
  }

  /** The round trip on the message's stream. */
  lemma DecodesMessage(m: string, capacity: nat)
    requires NulFree(m) && 2 <= capacity <= 9 && capacity <= |m|
    ensures var X := Source(m, capacity);
      NulFrom(X, capacity + |m|) && DecompressText(Render(CompressFrom(X, capacity + |m|, capacity, 0)), capacity) == Some(m)
  {
    StreamStart(m, capacity);
    StreamEnd(m, capacity);
    DecodesStream(Source(m, capacity), capacity + |m|, capacity, m);
  }

  /** The stream of a NUL-free message starts as DecodesStream asks. */
  lemma StreamStart(m: string, capacity: nat)
    requires NulFree(m) && 1 <= capacity && 1 <= |m|
    ensures var X := Source(m, capacity);
      NulFrom(X, capacity + |m|) && X(capacity) != NUL && Window(X, 0, capacity) == Nuls(capacity)
  {
    SourceNulFrom(m, capacity, capacity + |m|);
    SourceAt(m, capacity, capacity);
    InitialDictionary(m, capacity);
  }

  /** When the compressor of a message stops, the decoder's output plus its flushed buffer is the message. */
  lemma StreamEnd(m: string, capacity: nat)
    requires NulFree(m) && 1 <= capacity <= |m|
    ensures var X, n := Source(m, capacity), capacity + |m|;
      NulFrom(X, n) && Flushed(StreamState(X, StopTime(X, n, capacity, 0), capacity)) == m
  {
    var X, n := Source(m, capacity), capacity + |m|;
    SourceNulFrom(m, capacity, n);
    var T := StopTime(X, n, capacity, 0);
    SourceAt(m, capacity, T + capacity);
    FinalOutput(m, capacity, T);
  }

  // ---------------------------------------------------------------------------
  // Short messages
  // ---------------------------------------------------------------------------

  /**
   * A compressor that stops before time `capacity` leaves the decoder with
   * no output and a buffer that starts with NUL: the flush, which stops at
   * the first NUL, then drops the whole message.
   */
  lemma EarlyStopLosesMessage(m: string, capacity: nat)
    requires NulFree(m) && 2 <= capacity <= 9 && 1 <= |m|
    requires NulFrom(Source(m, capacity), capacity + |m|) && StopTime(Source(m, capacity), capacity + |m|, capacity, 0) < capacity
    ensures DecompressText(Render(Compressed(m, capacity)), capacity) == Some("")
  {
    var X, n := Source(m, capacity), capacity + |m|;
    StreamStart(m, capacity);
    var T := StopTime(X, n, capacity, 0);
    var Before := Window(X, 0, T);
    forall i | 0 <= i < T
      ensures Before[i] == Nuls(T)[i]
    {
      SourceAt(m, capacity, i);
    }
    assert Before == Nuls(T);
    NonNulCases(T, []);
    SourceAt(m, capacity, T);
    assert Window(X, T, capacity)[0] == NUL;
    assert Flushed(StreamState(X, T, capacity)) == "";
    DecodesStream(X, n, capacity, "");
  }

  /**
   * "ab" with capacity 3 is written as the triads 0, 0, a and 0, 0, b, after
   * which the compressor stops at time 2: the text decompresses to the empty
   * string.
   */
  lemma ShortMessageLost(m: string)
    requires m == "ab"
    ensures m != [] && DecompressText(Render(Compressed(m, 3)), 3) == Some("")
  {
    StopsAtTwo(m);
    EarlyStopLosesMessage(m, 3);
  }

  /**
   * A message shorter than the capacity is not always lost: "aa" with
   * capacity 3 is written as the triads 0, 0, a and 3, 1, NUL, which cover
   * three characters, so the flush meets the buffer a, a, NUL.
   */
  lemma ShortMessageKept(m: string)
    requires m == "aa"
    ensures |m| < 3 && DecompressText(Render(Compressed(m, 3)), 3) == Some(m)
  {
    var X := Source(m, 3);
    SourceNulFrom(m, 3, 5);
    FirstHeadsOfDouble(m);
    StopTimeStep(X, 5, 3, 0);
    StopTimeStep(X, 5, 3, 1);
    SourceAt(m, 3, 6);
    assert StopTime(X, 5, 3, 0) == 3;
    LateStopKeepsMessage(m, 3);
  }

  /**
   * The converse of EarlyStopLosesMessage: a compressor that stops at time
   * `capacity` or later leaves a decoder whose flush gives the whole message,
   * whatever the message's length.
   */
  lemma LateStopKeepsMessage(m: string, capacity: nat)
    requires NulFree(m) && 2 <= capacity <= 9 && 1 <= |m|
    requires NulFrom(Source(m, capacity), capacity + |m|) && StopTime(Source(m, capacity), capacity + |m|, capacity, 0) >= capacity
    ensures DecompressText(Render(Compressed(m, capacity)), capacity) == Some(m)
  {
    var X, n := Source(m, capacity), capacity + |m|;
    var T := StopTime(X, n, capacity, 0);
    SourceAt(m, capacity, T + capacity);
    FinalPrefix(m, capacity, T);
    FinalBuffer(m, capacity, T);
    assert m[..T - capacity] + m[T - capacity..] == m;
    StreamStart(m, capacity);
    DecodesStream(X, n, capacity, m);
  }

  /** For "aa" with capacity 3 the first triad copies nothing and the second copies one character. */
  lemma FirstHeadsOfDouble(m: string)
    requires m == "aa"
    ensures var X := Source(m, 3);
      X(3) == 'a' && X(4) == 'a' && Head(X, 3, 0).q == 0 && Head(X, 3, 1).q == 1
  {
    var X := Source(m, 3);
    assert Window(X, 0, 3) == [NUL, NUL, NUL];
    HeadAbsent(X, 3, 0);
    var D, B := Window(X, 1, 3), Window(X, 4, 3);
    assert D == [NUL, NUL, 'a'] && B[0] == 'a';
    TriadForSpec(D, B, X(7));
  }

  /** The compressor of "ab" with capacity 3 stops at time 2. */
  lemma StopsAtTwo(m: string)
    requires m == "ab"
    ensures NulFrom(Source(m, 3), 5) && StopTime(Source(m, 3), 5, 3, 0) == 2
  {
    var X := Source(m, 3);
    SourceNulFrom(m, 3, 5);
    FirstTwoHeads(m);
    StopTimeStep(X, 5, 3, 0);
    StopTimeStep(X, 5, 3, 1);
    assert X(5) == NUL;
  }

  /** Neither "a" nor "b" is in the dictionary when it reaches the head of the buffer. */
  lemma FirstTwoHeads(m: string)
    requires m == "ab"
    ensures var X := Source(m, 3);
      X(3) == 'a' && X(4) == 'b' && Head(X, 3, 0).q == 0 && Head(X, 3, 1).q == 0
  {
    var X := Source(m, 3);
    assert Window(X, 0, 3) == [NUL, NUL, NUL];
    assert Window(X, 1, 3) == [NUL, NUL, 'a'];
    HeadAbsent(X, 3, 0);
    HeadAbsent(X, 3, 1);
  }

  /** A buffer head absent from the dictionary gives a triad with q = 0. */
  lemma HeadAbsent(X: Stream, capacity: nat, t: int)
    requires capacity >= 1 && X(t + capacity) !in Window(X, t, capacity)
    ensures Head(X, capacity, t).q == 0
  {
    var D, B := Window(X, t, capacity), Window(X, t + capacity, capacity);
    TriadForSpec(D, B, X(t + 2 * capacity));
    assert B[0] == X(t + capacity);
  }

  /** The flush as intended: every non-NUL character of the buffer, in order. */
  function FlushedAll(s: DecoderState): string {
    s.decoded + NonNul(s.buffer)
  }

  /** Decompression with the intended flush. */
  function DecompressTextAll(text: string, capacity: nat): Option<string>
    requires capacity >= 1
  {
    if |text| == 0 then None
    else
      match DecodeFrom(text, capacity, 0, DecoderState(Nuls(capacity), ""))
      case None => None
      case Some(f) => Some(FlushedAll(f))
  }

  /** Two adjacent windows make one. */
  lemma WindowAppend(X: Stream, from: int, a: nat, b: nat)
    ensures Window(X, from, a) + Window(X, from + a, b) == Window(X, from, a + b)
  {
  }

  /** Up to any time from the end of the message on, the stream is NULs, the message, NULs. */
  lemma SourceWindow(m: string, capacity: nat, t: nat)
    requires |m| <= t
    ensures Window(Source(m, capacity), 0, t + capacity) == Nuls(capacity) + m + Nuls(t - |m|)
  {
    var W := Window(Source(m, capacity), 0, t + capacity);
    forall i | 0 <= i < t + capacity
      ensures W[i] == (Nuls(capacity) + m + Nuls(t - |m|))[i]
    {
      SourceAt(m, capacity, i);
    }
  }

  /** The non-NUL characters of a NUL-free message between NULs are the message. */
  lemma NonNulPadded(m: string, a: nat, b: nat)
    requires NulFree(m)
    ensures NonNul(Nuls(a) + m + Nuls(b)) == m
  {
    NonNulAppend(Nuls(a) + m, Nuls(b));
    NonNulAppend(Nuls(a), m);
    NonNulCases(a, m);
    NonNulCases(b, []);
  }

  /** Once the message has entered the buffer, the decoder's output and every non-NUL buffer character are the message. */
  lemma FinalOutputAll(m: string, capacity: nat, t: nat)
    requires NulFree(m) && |m| <= t
    ensures FlushedAll(StreamState(Source(m, capacity), t, capacity)) == m
  {
    var X := Source(m, capacity);
    WindowAppend(X, 0, t, capacity);
    NonNulAppend(Window(X, 0, t), Window(X, t, capacity));
    SourceWindow(m, capacity, t);
    NonNulPadded(m, capacity, t - |m|);
  }

  /** When the compressor of any NUL-free message stops, the intended flush gives the message. */
  lemma StreamEndAll(m: string, capacity: nat)
    requires NulFree(m) && 1 <= capacity
    ensures var X, n := Source(m, capacity), capacity + |m|;
      NulFrom(X, n) && FlushedAll(StreamState(X, StopTime(X, n, capacity, 0), capacity)) == m
  {
    var X, n := Source(m, capacity), capacity + |m|;
    SourceNulFrom(m, capacity, n);
    var T := StopTime(X, n, capacity, 0);
    SourceAt(m, capacity, T + capacity);
    assert T >= |m|;
    FinalOutputAll(m, capacity, T);
  }

  /** DecodesStream for the intended flush. */
  lemma DecodesStreamAll(X: Stream, n: nat, capacity: nat, m: string)
    requires 2 <= capacity <= 9 && NulFrom(X, n) && X(capacity) != NUL && Window(X, 0, capacity) == Nuls(capacity)
    requires FlushedAll(StreamState(X, StopTime(X, n, capacity, 0), capacity)) == m
    ensures DecompressTextAll(Render(CompressFrom(X, n, capacity, 0)), capacity) == Some(m)
  {
    DecodesStreamState(X, n, capacity);
  }

  /**
   * The round trip with the intended flush holds for every NUL-free message
   * the compressor finishes on (two or more characters), shorter than the
   * capacity or not; a one-character message is admitted as a fact about the
   * `Compressed` stream only.
   */
  lemma DecompressCompressAll(m: string, capacity: nat)
    requires NulFree(m) && 2 <= capacity <= 9 && 1 <= |m|
    ensures DecompressTextAll(Render(Compressed(m, capacity)), capacity) == Some(m)
  {
    StreamStart(m, capacity);
    StreamEndAll(m, capacity);
    DecodesStreamAll(Source(m, capacity), capacity + |m|, capacity, m);
  }
}
