/**
 The request message: the client prints `word:length` (client.c 23-37) and the server parses it back
 (server.c 107-135) through fixed buffers of two hundred bytes.
 */
module Wire {
  import opened Bytes

  const COLON: byte := 58
  const MAX_MSG: nat := 1024
  const CLIENT_BUFFER: nat := 8192
  const FIELD: nat := 200

  const SERVER_ERR := 0
  const SERVER_OK := 1

  // ----- decimal numbers -----

  /** %d of a number that is not negative. */
  function Decimal(n: nat): (s: seq<byte>)
    ensures s != []
  {
    if n < 10 then [48 + n] else Decimal(n / 10) + [48 + n % 10]
  }

  ghost predicate AllDigits(s: seq<byte>) {
    forall i :: 0 <= i < |s| ==> IsDigit(s[i])
  }

  /** atoi of a string of digits. */
  function Value(s: seq<byte>): nat
    requires AllDigits(s)
  {
    if s == [] then 0 else 10 * Value(s[..|s| - 1]) + (s[|s| - 1] - 48)
  }

  lemma {:induction false} DecimalValue(n: nat)
    ensures AllDigits(Decimal(n)) && Value(Decimal(n)) == n
  {
    if n >= 10 {
      DecimalValue(n / 10);
      assert Decimal(n)[..|Decimal(n)| - 1] == Decimal(n / 10);
    } else {
      assert Decimal(n)[..0] == [];
    }
  }

  lemma DecimalShort(n: nat)
    requires n < 1000
    ensures |Decimal(n)| <= 3
  {
    if n >= 10 {
      assert Decimal(n / 10) == if n / 10 < 10 then [48 + n / 10] else Decimal(n / 100) + [48 + n / 10 % 10];
    }
  }

  /** The digits by name, most significant first. */
  lemma DecimalMeans(n: nat)
    ensures n < 10 ==> Decimal(n) == [Ascii("0123456789")[n]]
    ensures n >= 10 ==> Decimal(n) == Decimal(n / 10) + [Ascii("0123456789")[n % 10]]
  {
    Digit(n % 10);
  }

  lemma Digit(n: nat)
    requires n < 10
    ensures Ascii("0123456789")[n] == 48 + n
  {
  }

  /** A digit more is ten times as much, and the digit. */
  lemma ValueMeans(s: seq<byte>, n: nat)
    requires AllDigits(s) && n < 10
    ensures Value([]) == 0
    ensures var t := s + [Ascii("0123456789")[n]]; AllDigits(t) && Value(t) == 10 * Value(s) + n
  {
    var t := s + [Ascii("0123456789")[n]];
    assert t[..|s|] == s;
  }

  // ----- the client -----

  function Message(word: seq<byte>): seq<byte> {
    word + [COLON] + Decimal(|word|)
  }

  /** snprintf of a known text: cut to size - 1 bytes and terminated; the uncut length is returned. */
  method Snprintf(buf: array<byte>, size: nat, text: seq<byte>) returns (len: nat)
    requires 0 < size <= buf.Length
    modifies buf
    ensures len == |text|
    ensures var n := if len < size then len else size - 1; buf[..n] == text[..n] && buf[n] == NUL
  {
    len := |text|;
    var n := if len < size then len else size - 1;
    forall i | 0 <= i < n {
      buf[i] := text[i];
    }
    buf[n] := NUL;
  }

  /** The printer in clientFindDefinition. */
  method PrintMessage(word: seq<byte>) returns (msg: array<byte>, len: nat)
    requires NUL !in word && |Message(word)| < CLIENT_BUFFER
    ensures fresh(msg) && msg.Length == CLIENT_BUFFER && len == |Message(word)| && msg[len] == NUL
    ensures len < MAX_MSG ==> msg[..len] == Message(word)
    ensures len >= MAX_MSG ==> msg[..MAX_MSG - 1] == Message(word)[..MAX_MSG - 1] && msg[MAX_MSG - 1] == NUL
  {
    msg := new byte[CLIENT_BUFFER](_ => NUL);
    len := |word|;
    len := Snprintf(msg, MAX_MSG, word + [COLON] + Decimal(len));
    msg[len] := NUL;
  }

  // ----- the server -----

  datatype Parsed = Rejected | Accepted(word: seq<byte>)

  /** How far the first loop gets: to a colon, to the end, or to the size of the buffer. */
  function Head(m: seq<byte>, n: nat): (h: nat)
    requires n <= |m| && n <= FIELD
    ensures n <= h <= |m| && h <= FIELD
    decreases |m| - n
  {
    if n == |m| || n >= FIELD || m[n] == COLON then n else Head(m, n + 1)
  }

  /** The bytes after the one the first loop stopped on. */
  function Length(m: seq<byte>): seq<byte>
    requires Head(m, 0) < |m|
  {
    m[Head(m, 0) + 1..]
  }

  /** The digits sent with the word, and the number they are, stay within the server's buffers whenever it gets to use them. */
  ghost predicate Conforming(m: seq<byte>) {
    Head(m, 0) < |m| && AllDigits(if |Length(m)| < FIELD then Length(m) else Length(m)[..FIELD]) ==>
      |Length(m)| < FIELD && Value(Length(m)) < FIELD
  }

  /** The meaning of a message: the first `length` bytes of the zero-padded word. */
  ghost function Parse(m: seq<byte>): Parsed
    requires Conforming(m)
  {
    if Head(m, 0) == |m| then Rejected
    else if !AllDigits(if |Length(m)| < FIELD then Length(m) else Length(m)[..FIELD]) then Rejected
    else Accepted(Padded(m[..Head(m, 0)])[..Value(Length(m))])
  }

  /** A word in a zeroed buffer. */
  function Padded(s: seq<byte>): (r: seq<byte>)
    requires |s| <= FIELD
    ensures |r| == FIELD && r[..|s|] == s
  {
    s + seq(FIELD - |s|, _ => NUL)
  }

  /**
   m is what the parser can read of the buffer: up to the first NUL, or all of it. Without a NUL the
   buffer has to be as long as the parser may look: a full word, a byte to skip, and as many digits.
   */
  ghost predicate Reads(msg: seq<byte>, m: seq<byte>) {
    NUL !in m && m <= msg && if |m| < |msg| then msg[|m|] == NUL else |m| > 2 * FIELD
  }

  /**
   serverReadClientMessage, for any message. Where the source would read or write outside its buffers
   it has no defined behaviour, and the model stops.
   */
  method ReadClientMessage(msg: array<byte>, word: array<byte>, ghost m: seq<byte>)
    returns (defined: bool, status: int, len: nat)
    requires Reads(msg[..], m) && word.Length >= FIELD && word != msg
    modifies word
    ensures defined <==> Conforming(m)
    ensures defined ==> status == if Parse(m) == Rejected then SERVER_ERR else SERVER_OK
    ensures defined && status == SERVER_OK ==>
              len < FIELD && word[..len] == Parse(m).word && len == |Parse(m).word| && word[len] == NUL
    ensures !defined || status == SERVER_ERR ==> word[..] == old(word[..])
  {
    hide Head, Value, Padded;
    defined, status, len := true, SERVER_ERR, 0;
    var strnum, tmpword := new byte[FIELD](_ => NUL), new byte[FIELD](_ => NUL);
    var ptr := ScanWord(msg, tmpword, m);
    if msg[ptr] == NUL {
      return;
    }
    var digits := ScanDigits(msg, strnum, m, ptr + 1);
    if !digits {
      return;
    }
    ghost var d := m[ptr + 1..];
    defined, len := Atoi(strnum, if |d| < FIELD then |d| else FIELD);
    if !defined || len >= FIELD {
      return false, SERVER_ERR, 0;
    }
    Copy(tmpword, word, len);
    status := SERVER_OK;
  }

  /** The first loop: copies the word up to a colon, the end, or the size of the buffer. */
  method ScanWord(msg: array<byte>, tmpword: array<byte>, ghost m: seq<byte>) returns (ptr: nat)
    requires Reads(msg[..], m)
    requires tmpword.Length == FIELD && tmpword != msg && forall x :: 0 <= x < FIELD ==> tmpword[x] == NUL
    modifies tmpword
    ensures ptr == Head(m, 0) <= |m| && ptr < msg.Length && (msg[ptr] == NUL <==> ptr == |m|)
    ensures tmpword[..] == Padded(m[..ptr])
  {
    ptr := 0;
    var i := 0;
    while i < FIELD && msg[ptr] != COLON && msg[ptr] != NUL
      invariant i == ptr <= |m| && i <= FIELD
      invariant Head(m, 0) == Head(m, i)
      invariant forall x :: 0 <= x < FIELD ==> tmpword[x] == if x < i then m[x] else NUL
    {
      assert msg[ptr] == m[i];
      tmpword[i] := msg[ptr];
      i, ptr := i + 1, ptr + 1;
    }
    assert ptr < |m| ==> msg[ptr] == m[ptr] && m[ptr] in m;
  }

  /** The second loop: copies the digits, giving up at the first byte that is not one. */
  method ScanDigits(msg: array<byte>, strnum: array<byte>, ghost m: seq<byte>, from: nat) returns (ok: bool)
    requires Reads(msg[..], m) && from <= |m| && from <= FIELD + 1
    requires strnum.Length == FIELD && strnum != msg && forall x :: 0 <= x < FIELD ==> strnum[x] == NUL
    modifies strnum
    ensures var d := m[from..]; ok <==> AllDigits(if |d| < FIELD then d else d[..FIELD])
    ensures var d := m[from..]; ok ==> strnum[..if |d| < FIELD then |d| else FIELD] == if |d| < FIELD then d else d[..FIELD]
    ensures ok && |m| - from < FIELD ==> strnum[|m| - from] == NUL
  {
    ghost var d := m[from..];
    var i, ptr := 0, from;
    while i < FIELD && msg[ptr] != NUL
      invariant i <= FIELD && ptr == from + i <= |m|
      invariant forall x :: 0 <= x < FIELD ==> strnum[x] == if x < i then d[x] else NUL
      invariant forall x :: 0 <= x < i ==> IsDigit(d[x])
    {
      assert msg[ptr] == m[ptr] == d[i];
      if !IsDigit(msg[ptr]) {
        assert !IsDigit((if |d| < FIELD then d else d[..FIELD])[i]);
        return false;
      }
      strnum[i] := msg[ptr];
      i, ptr := i + 1, ptr + 1;
    }
    assert ptr < |m| ==> msg[ptr] == m[ptr] && m[ptr] in m;
    ok := true;
  }

  /** The last part: cuts the word to its length, twice over. */
  method Copy(tmpword: array<byte>, word: array<byte>, len: nat)
    requires tmpword.Length == FIELD <= word.Length && len < FIELD && word != tmpword
    modifies tmpword, word
    ensures word[..len] == old(tmpword[..len]) && word[len] == NUL
  {
    tmpword[len] := NUL;
    forall x | 0 <= x < len {
      word[x] := tmpword[x];
    }
    word[len] := NUL;
  }

  /** atoi of n digits in a buffer; if they fill it there is no NUL, and it reads on past the end. */
  method Atoi(s: array<byte>, ghost n: nat) returns (inside: bool, v: nat)
    requires n <= FIELD == s.Length && AllDigits(s[..n]) && (n < FIELD ==> s[n] == NUL)
    ensures inside <==> n < FIELD
    ensures inside ==> v == Value(s[..n])
  {
    v := 0;
    var i := 0;
    while i < FIELD && IsDigit(s[i])
      invariant i <= n && v == Value(s[..i])
    {
      assert s[..i + 1][..i] == s[..i];
      v := 10 * v + (s[i] - 48);
      i := i + 1;
    }
    inside := i < FIELD;
  }

  // ----- what the server makes of what the client sends -----

  /** A message is a word, a byte to skip, and the rest; it decides as follows. */
  lemma ParseMeans(w: seq<byte>, x: byte, d: seq<byte>)
    requires ':' as int !in w && (|w| == 200 || (|w| < 200 && x == ':' as int))
    ensures var m := w + [x] + d;
            if exists i :: 0 <= i < |d| && i < 200 && !IsDigit(d[i]) then Conforming(m) && Parse(m) == Rejected
            else if |d| >= 200 || Value(d) >= 200 then !Conforming(m)
            else Conforming(m) && Parse(m) == Accepted((w + seq(200, _ => 0))[..Value(d)])
  {
    hide Value;
    var m := w + [x] + d;
    assert m[..|w|] == w && m[|w|] == x;
    HeadUnique(m, |w|);
    assert Length(m) == d;
    var e := if |d| < FIELD then d else d[..FIELD];
    if i :| 0 <= i < |d| && i < 200 && !IsDigit(d[i]) {
      assert e[i] == d[i];
    } else {
      assert AllDigits(e);
      if |d| < 200 && Value(d) < 200 {
        assert Padded(w)[..Value(d)] == (w + seq(200, _ => 0))[..Value(d)];
      }
    }
  }

  /** A message that ends before a colon or two hundred bytes is rejected. */
  lemma ParseWithoutColon(m: seq<byte>)
    requires ':' as int !in m && |m| <= 200
    ensures Conforming(m) && Parse(m) == Rejected
  {
    assert m[..|m|] == m;
    HeadUnique(m, |m|);
  }

  /** The message of a word is the word, a colon, and the number of its bytes. */
  lemma MessageMeans(word: seq<byte>)
    ensures Message(word) == word + Ascii(":") + Decimal(|word|)
  {
    hide Ascii, Decimal;
    Colon();
  }

  lemma Colon()
    ensures Ascii(":") == [COLON]
  {
  }

  /** What the server can read of the client's message: the part before the first NUL. */
  function Sent(word: seq<byte>): seq<byte> {
    if |Message(word)| < MAX_MSG then Message(word) else Message(word)[..MAX_MSG - 1]
  }

  /** Where the first loop stops: there is no colon before, and it is at a colon, at the end, or out of room. */
  lemma {:induction false} HeadStops(m: seq<byte>, n: nat)
    requires n <= |m| && n <= FIELD
    ensures var h := Head(m, n); COLON !in m[n..h] && (h == |m| || h == FIELD || m[h] == COLON)
    decreases |m| - n
  {
    if n < |m| && n < FIELD && m[n] != COLON {
      HeadStops(m, n + 1);
      assert m[n..Head(m, n)] == [m[n]] + m[n + 1..Head(m, n)];
    }
  }

  /** It stops nowhere else. */
  lemma HeadUnique(m: seq<byte>, k: nat)
    requires k <= |m| && k <= FIELD && COLON !in m[..k] && (k == |m| || k == FIELD || m[k] == COLON)
    ensures Head(m, 0) == k
  {
    var h := Head(m, 0);
    HeadStops(m, 0);
    forall x | 0 <= x < k ensures m[x] != COLON {
      assert m[..k][x] == m[x];
    }
    forall x | 0 <= x < h ensures m[x] != COLON {
      assert m[0..h][x] == m[x];
    }
  }

  /**
   The words whose messages take the parser outside its buffers: two hundred bytes without a colon, or
   two hundred digits after the byte the first loop stops on.
   */
  ghost predicate Overruns(word: seq<byte>) {
    var h := Head(word, 0);
    (|word| == 200 && COLON !in word) || (h + 1 + 200 <= |word| && AllDigits(word[h + 1..h + 1 + 200]))
  }

  /** The message begins with the word, as far as both go, and the parser's first loop stops where it would in the word. */
  lemma SentBegins(word: seq<byte>)
    ensures var m := Sent(word);
            (if |word| < 1000 then m == Message(word) && |word| < |m| < MAX_MSG else |m| >= 1000) &&
            forall i :: 0 <= i < |word| && i < 1000 ==> m[i] == word[i]
    ensures Head(Sent(word), 0) == Head(word, 0)
  {
    var m, h := Sent(word), Head(word, 0);
    if |word| < 1000 {
      DecimalShort(|word|);
    }
    HeadStops(word, 0);
    assert m[..h] == word[0..h];
    HeadUnique(m, h);
  }

  /** A window that does not fit in the word has the message's own colon in it. */
  lemma ColonInWindow(word: seq<byte>)
    requires Head(word, 0) < |word| < Head(word, 0) + 1 + FIELD
    ensures Conforming(Sent(word)) && Parse(Sent(word)) == Rejected
  {
    var m, h := Sent(word), Head(word, 0);
    SentBegins(word);
    var rest, c := Length(m), |word| - h - 1;
    assert rest[c] == m[|word|] == COLON;
    assert (if |rest| < FIELD then rest else rest[..FIELD])[c] == COLON;
  }

  /** A window that fits is all the parser looks at. */
  lemma WindowInWord(word: seq<byte>)
    requires Head(word, 0) + 1 + FIELD <= |word|
    ensures var h := Head(word, 0);
            if AllDigits(word[h + 1..h + 1 + FIELD]) then !Conforming(Sent(word))
            else Conforming(Sent(word)) && Parse(Sent(word)) == Rejected
  {
    hide Sent, Message, Decimal, Value, Head, Padded;
    var m, h := Sent(word), Head(word, 0);
    SentBegins(word);
    assert |Length(m)| >= FIELD;
    forall x | 0 <= x < FIELD ensures Length(m)[x] == word[h + 1..h + 1 + FIELD][x] {
      assert m[h + 1 + x] == word[h + 1 + x];
    }
    assert Length(m)[..FIELD] == word[h + 1..h + 1 + FIELD];
  }

  /** A colon-free word that fits is followed by its length. */
  lemma WordThenLength(word: seq<byte>)
    requires |word| <= FIELD && COLON !in word
    ensures Sent(word) == Message(word) && Head(Sent(word), 0) == |word|
    ensures Length(Sent(word)) == Decimal(|word|) && AllDigits(Decimal(|word|)) && Value(Decimal(|word|)) == |word|
  {
    SentBegins(word);
    assert word[..|word|] == word;
    HeadUnique(word, |word|);
    DecimalValue(|word|);
  }

  /** The shortest message that overruns: the length is two hundred, and so the terminator goes to index two hundred. */
  lemma LongestWord(word: seq<byte>)
    requires |word| == 200 && COLON !in word
    ensures |Message(word)| < 1024 && !Conforming(Message(word))
    ensures Head(Message(word), 0) == 200 && AllDigits(Length(Message(word))) && Value(Length(Message(word))) == 200
  {
    SentBegins(word);
    WordThenLength(word);
    DecimalShort(|word|);
  }

  /** Such a word: two hundred letters. */
  lemma TwoHundredLetters()
    ensures !Conforming(Message(seq(200, _ => 97 as byte)))
  {
    LongestWord(seq(200, _ => 97 as byte));
  }

  /**
   What the server makes of the client's message for any word. The parser stays inside its buffers
   exactly when the word does not overrun them; then exactly the words under two hundred bytes without
   a colon are accepted, each as itself.
   */
  lemma MessageParses(word: seq<byte>)
    ensures Conforming(Sent(word)) <==> !Overruns(word)
    ensures !Overruns(word) ==> Parse(Sent(word)) == if |word| < 200 && COLON !in word then Accepted(word) else Rejected
  {
    var m, h := Sent(word), Head(word, 0);
    HeadStops(word, 0);
    if |word| <= FIELD && COLON !in word {
      assert h == |word|;
      WordThenLength(word);
      DecimalShort(|word|);
      assert m[..|word|] == word;
    } else if h + 1 + FIELD <= |word| {
      WindowInWord(word);
    } else {
      assert word[0..h] == word[..h];
      ColonInWindow(word);
    }
  }

  /** The message of a word that is accepted, with its NUL, fits the buffer the server reads it into. */
  lemma MessageFits(word: seq<byte>)
    requires |word| < 200 && NUL !in word
    ensures |Message(word)| < 1024 && NUL !in Message(word)
  {
    DecimalShort(|word|);
    DecimalValue(|word|);
  }

  lemma SentHasNoNul(word: seq<byte>)
    requires NUL !in word
    ensures NUL !in Sent(word)
  {
    DecimalValue(|word|);
  }

  /**
   Both ends: what the client prints is read into the server's zeroed buffer and parsed there, for
   every word that fits the client's buffer.
   */
  method Exchange(word: seq<byte>) returns (defined: bool, status: int, request: array<byte>, len: nat)
    requires NUL !in word && |Message(word)| < CLIENT_BUFFER
    ensures fresh(request) && (defined <==> !Overruns(word))
    ensures defined ==> status == if |word| < 200 && COLON !in word then SERVER_OK else SERVER_ERR
    ensures defined && status == SERVER_OK ==>
              len == |word| < request.Length && request[..len] == word && request[len] == NUL
  {
    hide Message, Head, Conforming, Parse, Padded, Value, Overruns;
    MessageParses(word);
    SentHasNoNul(word);
    var sent, n := PrintMessage(word);
    var msg := new byte[MAX_MSG](_ => NUL);
    forall i | 0 <= i < n && i < MAX_MSG {
      msg[i] := sent[i];
    }
    request := new byte[MAX_MSG - 100](_ => NUL);
    assert msg[..|Sent(word)|] == sent[..|Sent(word)|];
    defined, status, len := ReadClientMessage(msg, request, Sent(word));
  }
}
