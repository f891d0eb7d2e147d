/**
String literals: how a value is written into SQL text, and how the tokenizer takes it out
of the text again, shortening it in place.
*/
module Escape {

  const NUL := '\0'
  const BACKSLASH := '\\'

  /** The characters that are written with a backslash in front. */
  predicate Special(c: char) { c in {'\'', '"', '`', '\\', '%', '_'} }

  // ----- writing

  function EscapeChar(c: char): string {
    if Special(c) then [BACKSLASH, c]
    else if c == '\n' then [BACKSLASH, 'n']
    else if c == '\r' then [BACKSLASH, 'r']
    else [c]
  }

  function EscapeOf(s: string): string {
    if s == [] then [] else EscapeChar(s[0]) + EscapeOf(s[1..])
  }

  /** The characters before the first NUL. */
  function BeforeNul(s: string): string {
    if s == [] || s[0] == NUL then [] else [s[0]] + BeforeNul(s[1..])
  }

  lemma {:induction false} EscapeAppend(s: string, c: char)
    ensures EscapeOf(s + [c]) == EscapeOf(s) + EscapeChar(c)
  {
    if s == [] {
      assert [c][1..] == [];
    } else {
      EscapeAppend(s[1..], c);
      assert (s + [c])[0] == s[0] && (s + [c])[1..] == s[1..] + [c];
      assert EscapeChar(s[0]) + (EscapeOf(s[1..]) + EscapeChar(c))
          == (EscapeChar(s[0]) + EscapeOf(s[1..])) + EscapeChar(c);
    }
  }

  lemma {:induction false} BeforeNulIs(s: string, i: nat)
    requires i <= |s| && NUL !in s[..i] && (i == |s| || s[i] == NUL)
    ensures BeforeNul(s) == s[..i]
  {
    if i > 0 {
      assert s[0] in s[..i] && s[1..][..i - 1] == s[..i][1..];
      BeforeNulIs(s[1..], i - 1);
    }
  }

  /** What is written, character by character. */
  lemma {:induction false} EscapeMeans(s: string, i: nat)
    requires i < |s|
    ensures |EscapeOf(s)| >= |EscapeOf(s[..i])| && EscapeOf(s)[..|EscapeOf(s[..i])|] == EscapeOf(s[..i])
    ensures EscapeOf(s[..i + 1]) == EscapeOf(s[..i]) +
      match s[i]
      case '\'' => "\\'"
      case '"' => "\\\""
      case '`' => "\\`"
      case '\\' => "\\\\"
      case '%' => "\\%"
      case '_' => "\\_"
      case '\n' => "\\n"
      case '\r' => "\\r"
      case c => [c]
  {
    assert s[..i + 1] == s[..i] + [s[i]];
    EscapeAppend(s[..i], s[i]);
    EscapePrefix(s, i);
  }

  lemma {:induction false} EscapePrefix(s: string, i: nat)
    requires i <= |s|
    ensures EscapeOf(s[..i]) <= EscapeOf(s)
    decreases |s| - i
  {
    if i == |s| {
      assert s[..i] == s;
    } else {
      assert s[..i + 1] == s[..i] + [s[i]];
      EscapeAppend(s[..i], s[i]);
      EscapePrefix(s, i + 1);
    }
  }

  /** Writes at most `length` characters of a string that goes on for one character more. */
  method EscapeStr(src: string, length: nat) returns (dest: string)
    requires length < |src|
    ensures dest == EscapeOf(BeforeNul(src[..length]))
  {
    dest := [];
    var i, left := 0, length;
    while src[i] != NUL && left > 0
      invariant i + left == length && NUL !in src[..i] && dest == EscapeOf(src[..i])
      decreases left
    {
      var ch := src[i];
      if ch in {'\'', '"', '`', '\\', '%', '_'} {
        dest := dest + [BACKSLASH];
        dest := dest + [ch];
      } else if ch == '\n' {
        dest := dest + [BACKSLASH];
        dest := dest + ['n'];
      } else if ch == '\r' {
        dest := dest + [BACKSLASH];
        dest := dest + ['r'];
      } else {
        dest := dest + [ch];
      }
      assert src[..i + 1] == src[..i] + [ch];
      EscapeAppend(src[..i], ch);
      i, left := i + 1, left - 1;
    }
    var s := src[..length];
    assert s[..i] == src[..i];
    BeforeNulIs(s, i);
  }

  // ----- reading

  /** A literal as it is read: nothing, or its characters and how much text it took. */
  datatype Lexed = Invalid | Str(value: string, used: nat)

  predicate CanFollow(c: char) { Special(c) || c in {'n', 'r', 't'} }

  function Meaning(c: char): char {
    if c == 'n' then '\n' else if c == 'r' then '\r' else if c == 't' then '\t' else c
  }

  function Longer(c: char, used: nat, rest: Lexed): Lexed {
    if rest.Invalid? then Invalid else Str([c] + rest.value, used + rest.used)
  }

  /** Reads the text after the opening quote q; the text ends where it ends or at a NUL. */
  function Lex(t: string, q: char): Lexed
    decreases |t|
  {
    if t == [] || t[0] == NUL then Invalid
    else if t[0] == q then Str([], 1)
    else if t[0] != BACKSLASH then Longer(t[0], 1, Lex(t[1..], q))
    else if |t| >= 2 && CanFollow(t[1]) then Longer(Meaning(t[1]), 2, Lex(t[2..], q))
    else Invalid
  }

  /** What each literal stands for: its text up to the closing quote q, and its value. */
  ghost predicate Spells(t: string, value: string, q: char)
    decreases |value|
  {
    if value == [] then t == [q]
    else
      || (t != [] && t[0] == value[0] && t[0] !in {q, '\\', '\0'} && Spells(t[1..], value[1..], q))
      || (|t| >= 2 && t[0] == '\\' && Spells(t[2..], value[1..], q) &&
        (match t[1]
          case 'n' => value[0] == '\n'
          case 'r' => value[0] == '\r'
          case 't' => value[0] == '\t'
          case '\'' => value[0] == '\''
          case '"' => value[0] == '"'
          case '`' => value[0] == '`'
          case '\\' => value[0] == '\\'
          case '%' => value[0] == '%'
          case '_' => value[0] == '_'
          case _ => false))
  }

  predicate Quote(q: char) { q in {'\'', '"', '`'} }

  lemma {:induction false} SpellsEnd(t: string, value: string, q: char)
    requires Quote(q) && (t == [] || t[0] in {NUL, q})
    ensures Spells(t, value, q) <==> value == [] && t == [q]
  {
  }

  lemma {:induction false} SpellsPlain(t: string, value: string, q: char)
    requires t != [] && t[0] !in {q, BACKSLASH, NUL}
    ensures Spells(t, value, q) <==> value != [] && value[0] == t[0] && Spells(t[1..], value[1..], q)
  {
  }

  lemma {:induction false} SpellsEscape(t: string, value: string, q: char)
    requires Quote(q) && t != [] && t[0] == BACKSLASH
    ensures Spells(t, value, q) <==>
      value != [] && |t| >= 2 && CanFollow(t[1]) && value[0] == Meaning(t[1]) && Spells(t[2..], value[1..], q)
  {
  }

  /** Reading takes a literal where there is one, as far as it goes. */
  lemma {:induction false} LexSpells(t: string, q: char, value: string, used: nat)
    requires Quote(q) && used <= |t|
    ensures Lex(t, q) == Str(value, used) <==> Spells(t[..used], value, q)
    decreases |t|
  {
    var u := t[..used];
    if used == 0 {
      SpellsEnd(u, value, q);
    } else if t[0] in {NUL, q} {
      SpellsEnd(u, value, q);
    } else if t[0] != BACKSLASH {
      SpellsPlain(u, value, q);
      LexRest(t, q, value, used, 1);
      assert u[1..] == t[1..][..used - 1];
    } else {
      SpellsEscape(u, value, q);
      if used >= 2 {
        LexRest(t, q, value, used, 2);
        assert u[2..] == t[2..][..used - 2];
      }
    }
  }

  lemma {:induction false} LexRest(t: string, q: char, value: string, used: nat, n: nat)
    requires Quote(q) && 0 < n <= used <= |t|
    ensures value != [] ==> (Lex(t[n..], q) == Str(value[1..], used - n) <==> Spells(t[n..][..used - n], value[1..], q))
    ensures forall c: char :: Longer(c, n, Lex(t[n..], q)) == Str(value, used) <==>
      value != [] && value[0] == c && Lex(t[n..], q) == Str(value[1..], used - n)
    decreases |t|, 0
  {
    if value != [] {
      LexSpells(t[n..], q, value[1..], used - n);
      assert value == [value[0]] + value[1..];
    }
  }

  lemma {:induction false} LexWithin(t: string, q: char)
    ensures Lex(t, q).Str? ==> Lex(t, q).used <= |t|
    decreases |t|
  {
    if t != [] {
      LexWithin(t[1..], q);
      if |t| >= 2 {
        LexWithin(t[2..], q);
      }
    }
  }

  /** One written character is read back. */
  lemma {:induction false} LexOne(c: char, t: string, q: char)
    requires c != NUL && Quote(q)
    ensures Lex(EscapeChar(c) + t, q) == Longer(c, |EscapeChar(c)|, Lex(t, q))
  {
    var e := EscapeChar(c);
    var u := e + t;
    assert u[0] == e[0] && u[|e|..] == t && (|e| == 2 ==> u[1] == e[1]);
  }

  /** What is written is read back, whatever follows it. */
  lemma {:induction false} RoundTrip(s: string, q: char, rest: string)
    requires NUL !in s && Quote(q)
    ensures Lex(EscapeOf(s) + [q] + rest, q) == Str(s, |EscapeOf(s)| + 1)
  {
    if s == [] {
      assert (EscapeOf(s) + [q] + rest)[0] == q;
    } else {
      var e, t := EscapeChar(s[0]), EscapeOf(s[1..]) + [q] + rest;
      assert s == [s[0]] + s[1..];
      RoundTrip(s[1..], q, rest);
      LexOne(s[0], t, q);
      assert EscapeOf(s) + [q] + rest == e + t;
    }
  }

  // ----- reading in place

  /** What Lex makes of the text from r on, given what stands before it already. */
  ghost predicate Reads(whole: Lexed, done: string, used: nat, rest: Lexed) {
    if rest.Invalid? then whole.Invalid? else whole == Str(done + rest.value, used + rest.used)
  }

  lemma {:induction false} ReadsOne(whole: Lexed, done: string, used: nat, c: char, n: nat, rest: Lexed)
    requires Reads(whole, done, used, Longer(c, n, rest))
    ensures Reads(whole, done + [c], used + n, rest)
  {
    assert !rest.Invalid? ==> (done + [c]) + rest.value == done + ([c] + rest.value);
  }

  /**
  Moves the characters of a literal to just behind its opening quote as they are read, up
  to the closing quote at r; the write position w never passes the read position.
  */
  method Compact(buf: array<char>, start: nat) returns (ok: bool, r: nat, w: nat)
    requires start < buf.Length && Quote(buf[start]) && buf[buf.Length - 1] == NUL
    modifies buf
    ensures ok <==> Lex(old(buf[start + 1..]), old(buf[start])).Str?
    ensures ok ==>
      start < w <= r < buf.Length && Lex(old(buf[start + 1..]), old(buf[start])) == Str(buf[start + 1..w], r - start)
    ensures ok ==> forall i :: (0 <= i <= start || w <= i < buf.Length) ==> buf[i] == old(buf[i])
  {
    ghost var text, q := buf[..], buf[start];
    ghost var whole := Lex(text[start + 1..], q);
    assert buf[start + 1..] == text[start + 1..];
    r, w := start + 1, start + 1;
    while buf[r] != NUL && buf[r] != buf[start]
      invariant w <= r < buf.Length && Moving(buf[..], text, whole, start, r, w)
      decreases buf.Length - r
    {
      var good;
      good, r, w := MoveOne(buf, start, r, w, text, whole);
      if !good {
        return false, r, w;
      }
    }
    assert text[r..][0] == buf[r];
    assert buf[start + 1..w] == buf[..][start + 1..w];
    ok := buf[r] != NUL;
  }

  /** Up to r the literal has been read, and its characters stand before w. */
  ghost predicate Moving(s: string, text: string, whole: Lexed, start: nat, r: nat, w: nat) {
    && start < w <= r < |text| && |s| == |text| && text[|text| - 1] == NUL && Quote(text[start])
    && (forall i :: 0 <= i <= start || w <= i < |text| ==> s[i] == text[i])
    && Reads(whole, s[start + 1..w], r - start - 1, Lex(text[r..], text[start]))
  }

  /** Moves one character. */
  method MoveOne(buf: array<char>, start: nat, r: nat, w: nat, ghost text: string, ghost whole: Lexed)
    returns (good: bool, r': nat, w': nat)
    requires Moving(buf[..], text, whole, start, r, w) && buf[r] != NUL && buf[r] != text[start]
    modifies buf
    ensures good ==> r < r' < buf.Length && w' <= r' && Moving(buf[..], text, whole, start, r', w')
    ensures !good ==> whole.Invalid?
  {
    ghost var done := buf[..][start + 1..w];
    assert forall i :: r <= i < buf.Length ==> buf[i] == buf[..][i];
    var c, n;
    good, c, n := NextChar(buf, r, text, text[start]);
    r', w' := r + n, w + 1;
    if good {
      ReadsOne(whole, done, r - start - 1, c, n, Lex(text[r + n..], text[start]));
      PutChar(buf, start + 1, w, c);
      assert buf[..][start + 1..w + 1] == done + [c];
    }
  }

  /** The next character of a literal, and how much text it takes. */
  method NextChar(buf: array<char>, r: nat, ghost text: string, ghost q: char) returns (good: bool, c: char, n: nat)
    requires r < buf.Length == |text| && buf[r] != NUL && buf[r] != q && text[|text| - 1] == NUL && q != BACKSLASH
    requires forall i :: r <= i < buf.Length ==> buf[i] == text[i]
    ensures good ==> r < r + n < buf.Length && Lex(text[r..], q) == Longer(c, n, Lex(text[r + n..], q))
    ensures !good ==> Lex(text[r..], q) == Invalid
  {
    good, c, n := true, buf[r], 1;
    if c == BACKSLASH {
      LexEscape(text, r, q);
      good := CanFollow(buf[r + 1]);
      c, n := Meaning(buf[r + 1]), 2;
    } else {
      LexPlain(text, r, q);
    }
  }

  /** One character more behind those that stand from `from` on. */
  method PutChar(buf: array<char>, ghost from: nat, w: nat, c: char)
    requires from <= w < buf.Length
    modifies buf
    ensures buf[from..w + 1] == old(buf[from..w]) + [c]
    ensures forall i :: 0 <= i < buf.Length && i != w ==> buf[i] == old(buf[i])
  {
    buf[w] := c;
  }

  lemma {:induction false} LexPlain(text: string, r: nat, q: char)
    requires r < |text| && text[r] != NUL && text[r] != q && text[r] != BACKSLASH
    ensures Lex(text[r..], q) == Longer(text[r], 1, Lex(text[r + 1..], q))
  {
    assert text[r..][1..] == text[r + 1..];
  }

  lemma {:induction false} LexEscape(text: string, r: nat, q: char)
    requires r < |text| && text[|text| - 1] == NUL && text[r] == BACKSLASH && q != BACKSLASH
    ensures r + 1 < |text|
    ensures Lex(text[r..], q) ==
      if CanFollow(text[r + 1]) then Longer(Meaning(text[r + 1]), 2, Lex(text[r + 2..], q)) else Invalid
    ensures CanFollow(text[r + 1]) ==> r + 2 < |text|
  {
    assert text[r..][1] == text[r + 1] && text[r..][2..] == text[r + 2..];
  }

  /** The text from one place to another is a literal with this value. */
  ghost predicate SpellsAt(text: string, from: nat, to: nat, value: string, q: char) {
    from <= to <= |text| && Spells(text[from..to], value, q)
  }

  ghost predicate NoLiteral(text: string, from: nat, q: char) {
    forall to: nat, value {:trigger SpellsAt(text, from, to, value, q)} :: !SpellsAt(text, from, to, value, q)
  }

  lemma ReadIsSpelled(text: string, from: nat, q: char, read: Lexed)
    requires from <= |text| && Quote(q) && read == Lex(text[from..], q)
    ensures read.Str? ==> SpellsAt(text, from, from + read.used, read.value, q)
    ensures read.Invalid? ==> NoLiteral(text, from, q)
  {
    forall to: nat, value | from <= to <= |text|
      ensures SpellsAt(text, from, to, value, q) <==> read == Str(value, to - from)
    {
      LexSpells(text[from..], q, value, to - from);
      assert text[from..][..to - from] == text[from..to];
    }
    LexWithin(text[from..], q);
  }

  /** Takes a literal out, as far as it is read. */
  method Take(buf: array<char>, start: nat, split: bool) returns (ok: bool, token: nat, length: nat, next: nat)
    requires start < buf.Length && Quote(buf[start]) && buf[buf.Length - 1] == NUL
    modifies buf
    ensures ok <==> Lex(old(buf[start + 1..]), old(buf[start])).Str?
    ensures ok ==> token == start + 1 && token + length < next <= buf.Length
    ensures ok ==> Lex(old(buf[start + 1..]), old(buf[start])) == Str(buf[token..token + length], next - token)
    ensures ok && split ==> buf[token + length] == NUL
    ensures ok && !split ==> buf[token + length] == old(buf[token + length])
    ensures ok ==> forall i :: (0 <= i <= start || token + length < i < buf.Length) ==> buf[i] == old(buf[i])
  {
    var r, w;
    ok, r, w := Compact(buf, start);
    token, length, next := start, 0, start;
    if !ok {
      return;
    }
    ghost var value := buf[start + 1..w];
    token := token + 1;
    length := w - token;
    if split {
      buf[w] := NUL;
    }
    assert buf[token..token + length] == value;
    next := r + 1;
  }

  /**
  Takes a literal out of the text in a buffer that ends with NUL: its opening quote is at
  `start`, its characters are left at `token`, and reading goes on at `next`. It fails
  exactly when no literal starts there.
  */
  method Tokenize(buf: array<char>, start: nat, split: bool) returns (ok: bool, token: nat, length: nat, next: nat)
    requires start < buf.Length && Quote(buf[start]) && buf[buf.Length - 1] == NUL
    modifies buf
    ensures ok <==> Lex(old(buf[..])[start + 1..], old(buf[start])).Str?
    ensures ok ==> token == start + 1 && token + length < next <= buf.Length
    ensures ok ==> Lex(old(buf[..])[start + 1..], old(buf[start])) == Str(buf[token..token + length], next - token)
    ensures ok ==> SpellsAt(old(buf[..]), start + 1, next, buf[token..token + length], old(buf[start]))
    ensures !ok ==> NoLiteral(old(buf[..]), start + 1, old(buf[start]))
    ensures ok && split ==> buf[token + length] == NUL
    ensures ok && !split ==> buf[token + length] == old(buf[token + length])
    ensures ok ==> forall i :: (0 <= i <= start || token + length < i < buf.Length) ==> buf[i] == old(buf[i])
  {
    assert buf[..][start + 1..] == buf[start + 1..];
    ReadIsSpelled(buf[..], start + 1, buf[start], Lex(buf[..][start + 1..], buf[start]));
    ok, token, length, next := Take(buf, start, split);
  }

  /** A value written between quotes into a text comes back with its characters and its length. */
  method WriteAndRead(s: string, q: char, rest: string) returns (value: string)
    requires NUL !in s && Quote(q)
    ensures value == s
  {
    var literal := EscapeStr(s + [NUL], |s|);
    BeforeNulIs(s, |s|);
    assert (s + [NUL])[..|s|] == s && s[..|s|] == s;
    var text := [q] + literal + [q] + rest + [NUL];
    var buf := new char[|text|](i requires 0 <= i < |text| => text[i]);
    assert buf[..] == text;
    assert buf[1..] == text[1..] == EscapeOf(s) + [q] + (rest + [NUL]);
    RoundTrip(s, q, rest + [NUL]);
    var ok, token, length, next := Tokenize(buf, 0, true);
    value := buf[token..token + length];
  }
}
