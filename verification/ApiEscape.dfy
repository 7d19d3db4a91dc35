/**
 Escaping and unescaping of api.c: escape_string, and the fields that copyadvanceafter takes apart again.
 Strings are NUL-terminated character arrays, and pointers into them are indices.
 */
module ApiEscape {

  const NUL := '\0'
  const BACKSLASH := '\\'

  // ---------------------------------------------------------------- what the strings mean

  // The C string that starts at the head of `s`.
  function CText(s: seq<char>): (t: string)
    ensures |t| <= |s| && NUL !in t
    ensures NUL in s ==> |t| < |s| && s[|t|] == NUL && s[..|t|] == t
  {
    if s == [] || s[0] == NUL then "" else [s[0]] + CText(s[1..])
  }

  predicate Special(c: char, isjson: bool) {
    c == BACKSLASH || (if isjson then c == '"' else c == ',' || c == '|' || c == '=')
  }

  function Escaped(c: char, isjson: bool): string { if Special(c, isjson) then [BACKSLASH, c] else [c] }

  function Escape(s: string, isjson: bool): string {
    if s == "" then "" else Escaped(s[0], isjson) + Escape(s[1..], isjson)
  }

  function CountSpecial(s: string, isjson: bool): nat {
    if s == "" then 0 else (if Special(s[0], isjson) then 1 else 0) + CountSpecial(s[1..], isjson)
  }

  // A backslash gives the next character to the field, unless it is the last of the string.
  predicate Quoting(t: string) { |t| > 1 && t[0] == BACKSLASH }

  // What copyadvanceafter copies of `t`, and what it leaves.
  function Field(ch: char, t: string): string {
    if t == "" || t[0] == ch then ""
    else if Quoting(t) then [t[1]] + Field(ch, t[2..])
    else [t[0]] + Field(ch, t[1..])
  }

  function Rest(ch: char, t: string): string {
    if t == "" then "" else if t[0] == ch then t[1..]
    else if Quoting(t) then Rest(ch, t[2..])
    else Rest(ch, t[1..])
  }

  datatype Details = Missing | Found(url: string, user: string, pass: string)

  // The three fields of an addpool parameter.
  function PoolDetailsOf(t: string): Details {
    var afterUrl := Rest(',', t);
    var afterUser := Rest(',', afterUrl);
    if afterUrl == "" || afterUser == "" then Missing
    else Found(Field(',', t), Field(',', afterUrl), Field(',', afterUser))
  }

  // ---------------------------------------------------------------- lemmas

  lemma {:induction false} EscapeLength(s: string, isjson: bool)
    ensures |Escape(s, isjson)| == |s| + CountSpecial(s, isjson)
    decreases |s|
  {
    if s != "" {
      EscapeLength(s[1..], isjson);
    }
  }

  lemma {:induction false} EscapeConcat(s: string, t: string, isjson: bool)
    ensures Escape(s + t, isjson) == Escape(s, isjson) + Escape(t, isjson)
    decreases |s|
  {
    if s == "" {
      assert s + t == t;
    } else {
      EscapeConcat(s[1..], t, isjson);
      assert (s + t)[1..] == s[1..] + t;
      Associative(Escaped(s[0], isjson), Escape(s[1..], isjson), Escape(t, isjson));
      hide Escaped;
    }
  }

  lemma Associative(a: string, b: string, c: string)
    ensures a + (b + c) == (a + b) + c
  {
  }

  // One character more.
  lemma EscapeSnoc(s: string, i: nat, isjson: bool)
    requires i < |s|
    ensures Escape(s[..i + 1], isjson) == Escape(s[..i], isjson) + Escaped(s[i], isjson)
    ensures CountSpecial(s[..i + 1], isjson) == CountSpecial(s[..i], isjson) + if Special(s[i], isjson) then 1 else 0
    ensures |Escape(s[..i + 1], isjson)| <= |Escape(s, isjson)|
  {
    assert s[..i + 1] == s[..i] + [s[i]] && s == s[..i + 1] + s[i + 1..] && [s[i]][1..] == "";
    EscapeConcat(s[..i], [s[i]], isjson);
    CountConcat(s[..i], [s[i]], isjson);
    EscapeConcat(s[..i + 1], s[i + 1..], isjson);
    hide Escaped, Special;
  }

  lemma {:induction false} CountConcat(s: string, t: string, isjson: bool)
    ensures CountSpecial(s + t, isjson) == CountSpecial(s, isjson) + CountSpecial(t, isjson)
    decreases |s|
  {
    if s == "" {
      assert s + t == t;
    } else {
      CountConcat(s[1..], t, isjson);
      assert (s + t)[1..] == s[1..] + t;
    }
  }

  // When there is nothing to escape the escaped string is the string itself.
  lemma {:induction false} NothingToEscape(s: string, isjson: bool)
    ensures CountSpecial(s, isjson) == 0 <==> Escape(s, isjson) == s
    decreases |s|
  {
    EscapeLength(s, isjson);
    if s != "" && CountSpecial(s, isjson) == 0 {
      NothingToEscape(s[1..], isjson);
    }
  }

  lemma {:induction false} NothingSpecial(s: string, isjson: bool)
    ensures CountSpecial(s, isjson) == 0 <==>
      BACKSLASH !in s && (if isjson then '"' !in s else ',' !in s && '|' !in s && '=' !in s)
    decreases |s|
  {
    if s != "" {
      NothingSpecial(s[1..], isjson);
      assert s == [s[0]] + s[1..];
    }
  }

  lemma {:induction false} EscapeKeepsNul(s: string, isjson: bool)
    requires NUL !in s
    ensures NUL !in Escape(s, isjson)
    decreases |s|
  {
    if s != "" {
      EscapeKeepsNul(s[1..], isjson);
    }
  }

  // The text of a string that ends at its first NUL.
  lemma {:induction false} CTextOf(t: string, rest: seq<char>)
    requires NUL !in t
    ensures CText(t + [NUL] + rest) == t
    decreases |t|
  {
    if t == "" {
      assert (t + [NUL] + rest)[0] == NUL;
    } else {
      CTextOf(t[1..], rest);
      assert (t + [NUL] + rest)[1..] == t[1..] + [NUL] + rest;
    }
  }

  // A field never needs more room than the part of the parameter it came from, its separator included.
  lemma {:induction false} FieldFits(ch: char, t: string)
    ensures |Field(ch, t)| + |Rest(ch, t)| <= |t|
    ensures Rest(ch, t) != "" ==> |Field(ch, t)| + 1 + |Rest(ch, t)| <= |t|
    decreases |t|
  {
    if t != "" && t[0] != ch {
      FieldFits(ch, if Quoting(t) then t[2..] else t[1..]);
    }
  }

  // An escaped field followed by any of the three separators is read back exactly, and the separator consumed.
  // So is one escaped for JSON when a double quote follows: nothing inside it closes the quotes.
  lemma {:induction false} FieldOfEscaped(ch: char, s: string, tail: string, isjson: bool)
    requires if isjson then ch == '"' else ch == ',' || ch == '|' || ch == '='
    ensures Field(ch, Escape(s, isjson) + [ch] + tail) == s
    ensures Rest(ch, Escape(s, isjson) + [ch] + tail) == tail
    decreases |s|
  {
    if s == "" {
      assert Escape(s, isjson) + [ch] + tail == [ch] + tail;
    } else {
      var u := Escape(s[1..], isjson) + [ch] + tail;
      EscapeFirst(s, isjson);
      assert Escape(s, isjson) + [ch] + tail == Escaped(s[0], isjson) + u;
      hide Field, Rest, Escape, Escaped;
      FieldOfEscaped(ch, s[1..], tail, isjson);
      FieldOfOne(ch, s[0], u, isjson);
    }
  }

  lemma EscapeFirst(s: string, isjson: bool)
    requires s != ""
    ensures Escape(s, isjson) == Escaped(s[0], isjson) + Escape(s[1..], isjson)
  {
  }

  lemma FieldOfOne(ch: char, c: char, u: string, isjson: bool)
    requires if isjson then ch == '"' else ch == ',' || ch == '|' || ch == '='
    ensures Field(ch, Escaped(c, isjson) + u) == [c] + Field(ch, u)
    ensures Rest(ch, Escaped(c, isjson) + u) == Rest(ch, u)
  {
    var t := Escaped(c, isjson) + u;
    if Special(c, isjson) {
      assert t[2..] == u;
    } else {
      assert t[1..] == u;
    }
  }

  // Exactly these characters get a backslash: the backslash itself, and in JSON the double quote, otherwise the
  // comma, the bar and the equals sign.
  lemma EscapeAt(s: string, i: nat, isjson: bool)
    requires i < |s|
    ensures var c := s[i];
      var quoted := if isjson then c in ['\\', '"'] else c in ['\\', ',', '|', '='];
      Escape(s, isjson) == Escape(s[..i], isjson) + (if quoted then ['\\', c] else [c]) + Escape(s[i + 1..], isjson)
  {
    EscapeSnoc(s, i, isjson);
    assert s == s[..i + 1] + s[i + 1..];
    EscapeConcat(s[..i + 1], s[i + 1..], isjson);
    hide Escape;
  }

  // A backslash gives any character to the field, the separator included; one that ends the string is kept.
  lemma FieldOfQuoted(ch: char, c: char, tail: string)
    requires ch != BACKSLASH
    ensures Field(ch, [BACKSLASH, c] + tail) == [c] + Field(ch, tail)
    ensures Rest(ch, [BACKSLASH, c] + tail) == Rest(ch, tail)
    ensures Field(ch, [BACKSLASH]) == [BACKSLASH] && Rest(ch, [BACKSLASH]) == ""
  {
    assert ([BACKSLASH, c] + tail)[2..] == tail;
  }

  lemma {:induction false} LastFieldOfEscaped(s: string)
    ensures Field(',', Escape(s, false)) == s && Rest(',', Escape(s, false)) == ""
    ensures Escape(s, false) == "" <==> s == ""
    decreases |s|
  {
    if s != "" {
      LastFieldOfEscaped(s[1..]);
      var t, u := Escape(s, false), Escape(s[1..], false);
      if Special(s[0], false) {
        assert t == [BACKSLASH, s[0]] + u && t[2..] == u;
      } else {
        assert t == [s[0]] + u && t[1..] == u;
      }
    }
  }

  function Joined(url: string, user: string, pass: string): string {
    Escape(url, false) + "," + Escape(user, false) + "," + Escape(pass, false)
  }

  // pooldetails undoes the escaping of three fields joined by commas exactly when the password is not
  // empty; an empty password is taken for a missing one.
  lemma RoundTrip(url: string, user: string, pass: string)
    ensures pass != "" ==> PoolDetailsOf(Joined(url, user, pass)) == Found(url, user, pass)
    ensures pass == "" ==> PoolDetailsOf(Joined(url, user, pass)) == Missing
  {
    var tail := Escape(user, false) + "," + Escape(pass, false);
    assert Joined(url, user, pass) == Escape(url, false) + "," + tail;
    FieldOfEscaped(',', url, tail, false);
    FieldOfEscaped(',', user, Escape(pass, false), false);
    LastFieldOfEscaped(pass);
  }

  // With fewer than three fields something is missing.
  lemma FewerThanThree(url: string, user: string)
    ensures PoolDetailsOf(Escape(url, false)) == Missing
    ensures PoolDetailsOf(Escape(url, false) + "," + Escape(user, false)) == Missing
  {
    LastFieldOfEscaped(url);
    LastFieldOfEscaped(user);
    FieldOfEscaped(',', url, Escape(user, false), false);
    hide Field, Escape;
  }

  // What follows a third comma is not read.
  lemma MoreThanThree(url: string, user: string, pass: string, more: string)
    ensures PoolDetailsOf(Joined(url, user, pass) + "," + more) == Found(url, user, pass)
  {
    hide Field, Rest, Escape;
    var one, two, three := Escape(url, false), Escape(user, false), Escape(pass, false);
    var last := three + "," + more;
    assert Joined(url, user, pass) + "," + more == one + "," + (two + "," + last);
    FieldOfEscaped(',', url, two + "," + last, false);
    FieldOfEscaped(',', user, last, false);
    FieldOfEscaped(',', pass, more, false);
  }

  // ---------------------------------------------------------------- escape_string

  method StrLen(str: array<char>) returns (n: nat)
    requires NUL in str[..]
    ensures n == |CText(str[..])|
  {
    n := 0;
    while str[n] != NUL
      invariant 0 <= n <= |CText(str[..])|
      decreases |CText(str[..])| - n
    {
      n := n + 1;
    }
  }

  // The first loop.
  method CountPass(str: array<char>, isjson: bool) returns (count: nat)
    requires NUL in str[..]
    ensures count == CountSpecial(CText(str[..]), isjson)
  {
    ghost var text := CText(str[..]);
    var i := 0;
    count := 0;
    while str[i] != NUL
      invariant 0 <= i <= |text|
      invariant count == CountSpecial(text[..i], isjson)
      decreases |text| - i
    {
      EscapeSnoc(text, i, isjson);
      if Special(str[i], isjson) {
        count := count + 1;
      }
      i := i + 1;
    }
    assert text[..i] == text;
  }

  // One turn of the second loop's switch.
  method PutEscaped(buf: array<char>, b: nat, c: char, isjson: bool) returns (b': nat)
    requires b + |Escaped(c, isjson)| <= buf.Length
    modifies buf
    ensures b' == b + |Escaped(c, isjson)|
    ensures buf[..b'] == old(buf[..b]) + Escaped(c, isjson)
  {
    b' := b;
    if Special(c, isjson) {
      buf[b'] := BACKSLASH;
      b' := b' + 1;
    }
    buf[b'] := c;
    b' := b' + 1;
  }

  // The second loop, into a buffer of exactly strlen(str) + count + 1.
  method WritePass(str: array<char>, isjson: bool, count: nat) returns (buf: array<char>)
    requires NUL in str[..] && count == CountSpecial(CText(str[..]), isjson)
    ensures fresh(buf) && buf.Length == |CText(str[..])| + count + 1
    ensures CText(buf[..]) == Escape(CText(str[..]), isjson)
  {
    ghost var text := CText(str[..]);
    assert str[..|text|] == text && str[|text|] == NUL && NUL !in text;
    var length := StrLen(str);
    EscapeLength(text, isjson);
    EscapeKeepsNul(text, isjson);
    buf := new char[length + count + 1];
    assert Escape(text[..0], isjson) == "";
    hide CText, Escape, Escaped, CountSpecial;
    var s, b := 0, 0;
    while str[s] != NUL
      invariant 0 <= s <= |text| && 0 <= b <= |text| + count
      invariant buf[..b] == Escape(text[..s], isjson)
      decreases |text| - s
    {
      EscapeSnoc(text, s, isjson);
      b := PutEscaped(buf, b, str[s], isjson);
      s := s + 1;
    }
    assert text[..s] == text;
    buf[b] := NUL;
    CTextOf(buf[..b], []);
    assert buf[..b] + [NUL] + [] == buf[..];
  }

  // The string itself when it needs no escape, otherwise a new one of exactly the length counted.
  method EscapeString(str: array<char>, isjson: bool) returns (buf: array<char>)
    requires NUL in str[..]
    ensures CText(buf[..]) == Escape(CText(str[..]), isjson)
    ensures buf == str <==> Escape(CText(str[..]), isjson) == CText(str[..])
    ensures var text := CText(str[..]);
      buf == str <==>
        '\\' !in text && (if isjson then '"' !in text else ',' !in text && '|' !in text && '=' !in text)
    ensures buf != str ==> fresh(buf) && buf.Length == |Escape(CText(str[..]), isjson)| + 1
  {
    ghost var text := CText(str[..]);
    NothingToEscape(text, isjson);
    NothingSpecial(text, isjson);
    var count := CountPass(str, isjson);
    if count == 0 {
      return str;
    }
    EscapeLength(text, isjson);
    buf := WritePass(str, isjson, count);
  }

  // ---------------------------------------------------------------- copyadvanceafter and pooldetails

  lemma TextStep(s: seq<char>)
    requires NUL in s && s[0] != NUL
    ensures |s| > 1 && NUL in s[1..] && CText(s) == [s[0]] + CText(s[1..])
  {
    assert s == [s[0]] + s[1..];
  }

  // The character one turn of the loop copies.
  function Taken(s: seq<char>, i: nat): (k: nat)
    requires i < |s|
    ensures i <= k < |s|
  {
    if i + 1 < |s| && s[i] == BACKSLASH && s[i + 1] != NUL then i + 1 else i
  }

  lemma Advance(ch: char, s: seq<char>, i: nat)
    requires i < |s| && NUL in s[i..] && s[i] != NUL && s[i] != ch
    ensures i + 1 < |s| && NUL in s[Taken(s, i) + 1..]
    ensures Field(ch, CText(s[i..])) == [s[Taken(s, i)]] + Field(ch, CText(s[Taken(s, i) + 1..]))
    ensures Rest(ch, CText(s[i..])) == Rest(ch, CText(s[Taken(s, i) + 1..]))
  {
    var u := s[i..];
    TextStep(u);
    var t := CText(u);
    assert u[1..] == s[i + 1..] && t[1..] == CText(u[1..]);
    if Taken(s, i) == i + 1 {
      TextStep(u[1..]);
      assert u[1..][1..] == s[i + 2..];
      assert t[2..] == CText(s[i + 2..]) && t[1] == s[i + 1];
    }
  }

  lemma AtEnd(ch: char, s: seq<char>, i: nat)
    requires i < |s| && NUL in s[i..] && (s[i] == NUL || s[i] == ch) && ch != NUL
    ensures Field(ch, CText(s[i..])) == ""
    ensures s[i] == NUL ==> Rest(ch, CText(s[i..])) == "" == CText(s[i..])
    ensures s[i] == ch ==> NUL in s[i + 1..] && Rest(ch, CText(s[i..])) == CText(s[i + 1..])
  {
    if s[i] == ch {
      TextStep(s[i..]);
      assert s[i..][1..] == s[i + 1..];
    }
  }

  // The body of the loop.
  method CopyOne(src: array<char>, p: nat, dst: array<char>, b: nat) returns (p': nat, b': nat)
    requires src != dst && p + 1 < src.Length && b < dst.Length
    modifies dst
    ensures p' == Taken(src[..], p) + 1 && b' == b + 1
    ensures dst[..b'] == old(dst[..b]) + [src[Taken(src[..], p)]]
  {
    p' := p;
    if src[p'] == BACKSLASH && src[p' + 1] != NUL {
      p' := p' + 1;
    }
    dst[b] := src[p'];
    b', p' := b + 1, p' + 1;
  }

  // `done` has been copied and the read pointer stands at s[i]: `field` and `rest` is how it will end.
  ghost predicate Copying(ch: char, s: seq<char>, i: nat, done: string, field: string, rest: string) {
    && i < |s| && NUL in s[i..]
    && done + Field(ch, CText(s[i..])) == field && Rest(ch, CText(s[i..])) == rest
  }

  lemma CopyStep(ch: char, s: seq<char>, i: nat, done: string, field: string, rest: string)
    requires Copying(ch, s, i, done, field, rest) && s[i] != NUL && s[i] != ch
    ensures Taken(s, i) + 1 < |s| && |done| < |field|
    ensures Copying(ch, s, Taken(s, i) + 1, done + [s[Taken(s, i)]], field, rest)
  {
    Advance(ch, s, i);
    Associative(done, [s[Taken(s, i)]], Field(ch, CText(s[Taken(s, i) + 1..])));
    hide Field, Rest, CText, Taken;
  }

  lemma InRange(ch: char, s: seq<char>, i: nat, done: string, field: string, rest: string)
    requires Copying(ch, s, i, done, field, rest)
    ensures i < |s| && |done| <= |field|
  {
  }

  lemma CopyEnd(ch: char, s: seq<char>, i: nat, done: string, field: string, rest: string)
    requires Copying(ch, s, i, done, field, rest) && (s[i] == NUL || s[i] == ch) && ch != NUL
    ensures done == field
    ensures var j := if s[i] == NUL then i else i + 1; NUL in s[j..] && CText(s[j..]) == rest
  {
    AtEnd(ch, s, i);
    hide Field, Rest, CText;
  }

  // The loop.
  method CopyField(ch: char, src: array<char>, p: nat, dst: array<char>, b: nat, ghost field: string,
                   ghost rest: string)
      returns (p': nat, b': nat)
    requires src != dst && ch != NUL && Copying(ch, src[..], p, "", field, rest)
    requires b + |field| <= dst.Length
    modifies dst
    ensures p <= p' < src.Length && (src[p'] == NUL || src[p'] == ch) && Copying(ch, src[..], p', field, field, rest)
    ensures b' == b + |field| && dst[..b'] == old(dst[..b]) + field
  {
    hide Taken, Copying;
    ghost var s, done := src[..], "";
    p', b' := p, b;
    InRange(ch, s, p, done, field, rest);
    while src[p'] != NUL && src[p'] != ch
      invariant p <= p' < |s| && Copying(ch, s, p', done, field, rest)
      invariant b' == b + |done| && |done| <= |field| && dst[..b'] == old(dst[..b]) + done
      decreases |s| - p'
    {
      CopyStep(ch, s, p', done, field, rest);
      done := done + [s[Taken(s, p')]];
      p', b' := CopyOne(src, p', dst, b');
    }
    CopyEnd(ch, s, p', done, field, rest);
  }

  // src[p..] is read and dst[b..] written; both pointers come back moved on.
  method CopyAdvanceAfter(ch: char, src: array<char>, p: nat, dst: array<char>, b: nat) returns (p': nat, b': nat)
    requires src != dst && p <= src.Length && NUL in src[..][p..] && ch != NUL
    requires b + |Field(ch, CText(src[..][p..]))| < dst.Length
    modifies dst
    ensures p <= p' <= src.Length && NUL in src[..][p'..] && CText(src[..][p'..]) == Rest(ch, CText(src[..][p..]))
    ensures b' == b + |Field(ch, CText(src[..][p..]))| + 1 <= dst.Length
    ensures dst[..b'] == old(dst[..b]) + Field(ch, CText(src[..][p..])) + [NUL]
  {
    ghost var s := src[..];
    ghost var field, rest := Field(ch, CText(s[p..])), Rest(ch, CText(s[p..]));
    assert Copying(ch, s, p, "", field, rest);
    hide Field, Rest, CText, Copying;
    p', b' := CopyField(ch, src, p, dst, b, field, rest);
    CopyEnd(ch, s, p', field, field, rest);
    if src[p'] != NUL {
      p' := p' + 1;
    }
    dst[b'] := NUL;
    b' := b' + 1;
  }

  lemma {:induction false} FieldKeepsNul(ch: char, t: string)
    requires NUL !in t
    ensures NUL !in Field(ch, t)
    decreases |t|
  {
    if t != "" && t[0] != ch {
      FieldKeepsNul(ch, if Quoting(t) then t[2..] else t[1..]);
    }
  }

  lemma EndOfText(s: seq<char>, p: nat)
    requires p <= |s| && NUL in s[p..]
    ensures p < |s| && (s[p] == NUL <==> CText(s[p..]) == "")
  {
  }

  // A field that was copied behind `before` reads back there.
  lemma FieldAt(s: seq<char>, before: string, field: string, upTo: string)
    requires NUL !in field && upTo == before + field + [NUL] && |upTo| <= |s| && s[..|upTo|] == upTo
    ensures CText(s[|before|..]) == field && s[..|before|] == before
  {
    hide CText;
    CTextOf(field, s[|upTo|..]);
    assert s[|before|..] == field + [NUL] + s[|upTo|..];
  }

  // The three pointers are indices into the one buffer, which holds exactly strlen(param) + 1 characters.
  method PoolDetails(param: array<char>) returns (ok: bool, buf: array<char>, url: nat, user: nat, pass: nat)
    requires NUL in param[..]
    ensures fresh(buf) && buf.Length == |CText(param[..])| + 1
    ensures ok <==> PoolDetailsOf(CText(param[..])).Found?
    ensures ok ==> url < user < pass < buf.Length
    ensures ok ==> PoolDetailsOf(CText(param[..])) == Found(CText(buf[url..]), CText(buf[user..]), CText(buf[pass..]))
  {
    hide Field, Rest, CText;
    ghost var s := param[..];
    ghost var t := CText(s);
    ghost var t1 := Rest(',', t);
    ghost var t2 := Rest(',', t1);
    ghost var f0, f1, f2 := Field(',', t), Field(',', t1), Field(',', t2);
    assert s[0..] == s;
    FieldFits(',', t);
    FieldFits(',', t1);
    FieldFits(',', t2);
    var length := StrLen(param);
    buf := new char[length + 1];
    url, user, pass := 0, 0, 0;
    var p, b := CopyAdvanceAfter(',', param, 0, buf, 0);
    ghost var g0 := buf[..b];
    EndOfText(s, p);
    if param[p] == NUL {
      return false, buf, url, user, pass;
    }
    user := b;
    p, b := CopyAdvanceAfter(',', param, p, buf, b);
    ghost var g1 := buf[..b];
    EndOfText(s, p);
    if param[p] == NUL {
      return false, buf, url, user, pass;
    }
    pass := b;
    p, b := CopyAdvanceAfter(',', param, p, buf, b);
    ok := true;
    FieldKeepsNul(',', t);
    FieldKeepsNul(',', t1);
    FieldKeepsNul(',', t2);
    FieldAt(buf[..], g1, f2, buf[..b]);
    FieldAt(buf[..], g0, f1, g1);
    FieldAt(buf[..], [], f0, g0);
  }
}
