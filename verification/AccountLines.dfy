/** The colon-separated lines make_jail_etc.c and use-crypt.c print. */
module AccountLines {
  // `parts` with `d` between them.
  function Join(parts: seq<string>, d: char): string
    requires parts != []
  {
    if |parts| == 1 then parts[0] else parts[0] + [d] + Join(parts[1..], d)
  }

  // The pieces of `s` between its `d`s.
  function Split(s: string, d: char): (r: seq<string>)
    ensures |r| == Count(s, d) + 1
  {
    if s == [] then [[]]
    else if s[0] == d then [[]] + Split(s[1..], d)
    else var r := Split(s[1..], d); [[s[0]] + r[0]] + r[1..]
  }

  function Count(s: string, d: char): nat {
    if s == [] then 0 else (if s[0] == d then 1 else 0) + Count(s[1..], d)
  }

  lemma {:induction false} CountAppend(s: string, t: string, d: char)
    ensures Count(s + t, d) == Count(s, d) + Count(t, d)
  {
    if s == [] {
      assert s + t == t;
    } else {
      assert (s + t)[1..] == s[1..] + t;
      CountAppend(s[1..], t, d);
    }
  }

  lemma {:induction false} CountIsMembership(s: string, d: char)
    ensures Count(s, d) == 0 <==> d !in s
  {
    if s != [] {
      CountIsMembership(s[1..], d);
      assert s == [s[0]] + s[1..];
    }
  }

  lemma {:induction false} SplitFirst(s: string, t: string, d: char)
    requires d !in s
    ensures Split(s + [d] + t, d) == [s] + Split(t, d)
    ensures Split(s, d) == [s]
  {
    if s == [] {
      assert s + [d] + t == [d] + t;
    } else {
      SplitFirst(s[1..], t, d);
      assert (s + [d] + t)[1..] == s[1..] + [d] + t;
      assert s == [s[0]] + s[1..];
    }
  }

  function CountAll(parts: seq<string>, d: char): nat {
    if parts == [] then 0 else Count(parts[0], d) + CountAll(parts[1..], d)
  }

  lemma {:induction false} CountJoin(parts: seq<string>, d: char)
    requires parts != []
    ensures Count(Join(parts, d), d) == |parts| - 1 + CountAll(parts, d)
  {
    if |parts| > 1 {
      CountJoin(parts[1..], d);
      CountAppend(parts[0] + [d], Join(parts[1..], d), d);
      CountAppend(parts[0], [d], d);
      assert Count([d], d) == 1;
    }
  }

  lemma {:induction false} CleanParts(parts: seq<string>, d: char)
    ensures CountAll(parts, d) == 0 <==> forall i :: 0 <= i < |parts| ==> d !in parts[i]
  {
    if parts != [] {
      CountIsMembership(parts[0], d);
      CleanParts(parts[1..], d);
      assert parts == [parts[0]] + parts[1..];
    }
  }

  lemma {:induction false} SplitCleanJoin(parts: seq<string>, d: char)
    requires parts != [] && forall i :: 0 <= i < |parts| ==> d !in parts[i]
    ensures Split(Join(parts, d), d) == parts
  {
    if |parts| == 1 {
      SplitFirst(parts[0], [], d);
    } else {
      SplitFirst(parts[0], Join(parts[1..], d), d);
      SplitCleanJoin(parts[1..], d);
    }
  }

  /** Splitting gives the parts of a joined line back exactly when no part holds
      the separator. */
  lemma SplitJoin(parts: seq<string>, d: char)
    requires parts != []
    ensures Split(Join(parts, d), d) == parts <==> forall i :: 0 <= i < |parts| ==> d !in parts[i]
  {
    CountJoin(parts, d);
    CleanParts(parts, d);
    if forall i :: 0 <= i < |parts| ==> d !in parts[i] {
      SplitCleanJoin(parts, d);
    }
  }

  /** And the other way about, for every string. */
  lemma {:induction false} JoinSplit(s: string, d: char)
    ensures Join(Split(s, d), d) == s
    ensures forall f <- Split(s, d) :: d !in f
  {
    if s != [] {
      JoinSplit(s[1..], d);
      var r := Split(s[1..], d);
      if s[0] == d {
        assert ([[]] + r)[1..] == r;
      } else {
        assert ([[s[0]] + r[0]] + r[1..])[1..] == r[1..];
        assert Join([[s[0]] + r[0]] + r[1..], d) == [s[0]] + Join(r, d);
      }
    }
  }

  // ---- %d ----

  function Digits(n: nat): (s: string)
    ensures s != [] && forall c <- s :: '0' <= c <= '9'
  {
    if n < 10 then ['0' + n as char] else Digits(n / 10) + ['0' + (n % 10) as char]
  }

  function Decimal(n: int): (s: string)
    ensures s != [] && forall c <- s :: '0' <= c <= '9' || c == '-'
  {
    if n < 0 then "-" + Digits(-n) else Digits(n)
  }

  function ReadDigits(s: string): int {
    if s == [] then 0 else ReadDigits(s[..|s| - 1]) * 10 + (s[|s| - 1] as int - '0' as int)
  }

  function ReadDecimal(s: string): int {
    if s != [] && s[0] == '-' then -ReadDigits(s[1..]) else ReadDigits(s)
  }

  lemma {:induction false} ReadDigitsBack(n: nat)
    ensures ReadDigits(Digits(n)) == n
  {
    if n < 10 {
      assert Digits(n)[..0] == [];
    } else {
      ReadDigitsBack(n / 10);
      var s := Digits(n);
      assert s[..|s| - 1] == Digits(n / 10);
    }
  }

  lemma ReadDecimalBack(n: int)
    ensures ReadDecimal(Decimal(n)) == n
  {
    if n < 0 {
      ReadDigitsBack(-n);
      assert Decimal(n)[1..] == Digits(-n);
    } else {
      ReadDigitsBack(n);
      assert Digits(n)[0] in Digits(n);
    }
  }

  /** The digits, one by one: a minus sign in front of a negative number, the last
      digit last, no zero in front. */
  lemma DecimalIs(n: int)
    ensures n < 0 ==> Decimal(n) == "-" + Decimal(-n)
    ensures n >= 10 ==> Decimal(n) == Decimal(n / 10) + ["0123456789"[n % 10]]
    ensures 0 <= n < 10 ==> Decimal(n) == ["0123456789"[n]]
  {
    TenDigits(n % 10);
  }

  lemma TenDigits(k: nat)
    requires k < 10
    ensures "0123456789"[k] == '0' + k as char
  {
  }

  // ---- The lines ----

  // "%s:x:%d:%d::%s/:%s\n"
  function PasswdText(name: string, id: int, home: string, shell: string): string {
    name + ":x:" + Decimal(id) + ":" + Decimal(id) + "::" + home + "/:" + shell + "\n"
  }

  // "%s:x:%d:\n"
  function GroupText(name: string, id: int): string {
    name + ":x:" + Decimal(id) + ":\n"
  }

  // "%s:%s:::::::\n"
  function ShadowText(name: string, hash: string): string {
    name + ":" + hash + ":::::::\n"
  }

  // The text is one line, ended by a newline, with these fields.
  predicate ReadsAs(text: string, fields: seq<string>) {
    var lines := Split(text, '\n');
    |lines| == 2 && lines[1] == "" && Split(lines[0], ':') == fields
  }

  predicate Clean(s: string) {
    ':' !in s && '\n' !in s
  }

  lemma LineReadsAs(fields: seq<string>)
    requires fields != []
    ensures ReadsAs(Join(fields, ':') + "\n", fields) <==> forall i :: 0 <= i < |fields| ==> Clean(fields[i])
  {
    var line := Join(fields, ':');
    var text := line + "\n";
    assert Join([line, ""], '\n') == text by {
      assert Join([line, ""][1..], '\n') == "";
      assert line + ['\n'] + "" == text;
    }
    SplitJoin([line, ""], '\n');
    SplitJoin(fields, ':');
    CountIsMembership(line, '\n');
    CountOther(fields, ':', '\n');
    CleanParts(fields, '\n');
    CountAppend(line, "\n", '\n');
    if '\n' !in line {
      assert forall i :: 0 <= i < 2 ==> '\n' !in [line, ""][i];
      assert Split(text, '\n') == [line, ""];
    } else {
      assert Count(text, '\n') > 1;
    }
  }

  /** Exactly which text reads as which fields. */
  lemma ReadsAsIs(text: string, fields: seq<string>)
    requires fields != []
    ensures ReadsAs(text, fields) <==>
              text == Join(fields, ':') + "\n" && forall i :: 0 <= i < |fields| ==> ':' !in fields[i] && '\n' !in fields[i]
  {
    LineReadsAs(fields);
    if ReadsAs(text, fields) {
      JoinSplit(text, '\n');
      var lines := Split(text, '\n');
      assert lines == [lines[0], ""];
      JoinStep(lines, '\n');
      JoinSplit(lines[0], ':');
    }
  }

  lemma {:induction false} CountOther(parts: seq<string>, d: char, e: char)
    requires parts != [] && d != e
    ensures Count(Join(parts, d), e) == CountAll(parts, e)
  {
    if |parts| == 1 {
      assert CountAll(parts[1..], e) == 0;
    } else {
      CountOther(parts[1..], d, e);
      CountAppend(parts[0] + [d], Join(parts[1..], d), e);
      CountAppend(parts[0], [d], e);
      assert Count([d], e) == 0;
    }
  }

  /** A passwd line reads back as its seven fields, the home with its added slash,
      exactly when name, home and shell hold no colon and no newline. */
  lemma PasswdReadsBack(name: string, id: int, home: string, shell: string)
    ensures ReadsAs(PasswdText(name, id, home, shell), [name, "x", Decimal(id), Decimal(id), "", home + "/", shell])
       <==> Clean(name) && Clean(home) && Clean(shell)
    ensures ReadDecimal(Decimal(id)) == id
  {
    var fields := [name, "x", Decimal(id), Decimal(id), "", home + "/", shell];
    PasswdIsJoin(name, id, home, shell);
    LineReadsAs(fields);
    ReadDecimalBack(id);
    if Clean(name) && Clean(home) && Clean(shell) {
      assert forall i :: 0 <= i < |fields| ==> Clean(fields[i]);
    } else {
      assert !Clean(fields[0]) || !Clean(fields[5]) || !Clean(fields[6]);
    }
  }

  lemma PasswdIsJoin(name: string, id: int, home: string, shell: string)
    ensures PasswdText(name, id, home, shell)
         == Join([name, "x", Decimal(id), Decimal(id), "", home + "/", shell], ':') + "\n"
  {
    var f := [name, "x", Decimal(id), Decimal(id), "", home + "/", shell];
    JoinStep(f, ':');
    JoinStep(f[1..], ':');
    JoinStep(f[2..], ':');
    JoinStep(f[3..], ':');
    JoinStep(f[4..], ':');
    JoinStep(f[5..], ':');
  }

  lemma JoinStep(f: seq<string>, d: char)
    requires |f| > 1
    ensures Join(f, d) == f[0] + [d] + Join(f[1..], d)
  {
  }

  /** A group line reads back as its four fields exactly for a clean name. */
  lemma GroupReadsBack(name: string, id: int)
    ensures ReadsAs(GroupText(name, id), [name, "x", Decimal(id), ""]) <==> Clean(name)
    ensures ReadDecimal(Decimal(id)) == id
  {
    var f := [name, "x", Decimal(id), ""];
    JoinStep(f, ':');
    JoinStep(f[1..], ':');
    JoinStep(f[2..], ':');
    assert GroupText(name, id) == Join(f, ':') + "\n";
    LineReadsAs(f);
    ReadDecimalBack(id);
    assert Clean(name) <==> Clean(f[0]);
  }

  /** A shadow line reads back as its nine fields exactly for a clean name and hash. */
  lemma ShadowReadsBack(name: string, hash: string)
    ensures ReadsAs(ShadowText(name, hash), [name, hash, "", "", "", "", "", "", ""])
       <==> Clean(name) && Clean(hash)
  {
    var f := [name, hash, "", "", "", "", "", "", ""];
    JoinStep(f, ':');
    JoinStep(f[1..], ':');
    assert Join(f[2..], ':') == "::::::" by {
      JoinStep(f[2..], ':');
      JoinStep(f[3..], ':');
      JoinStep(f[4..], ':');
      JoinStep(f[5..], ':');
      JoinStep(f[6..], ':');
      JoinStep(f[7..], ':');
    }
    assert ShadowText(name, hash) == Join(f, ':') + "\n";
    LineReadsAs(f);
    assert Clean(name) && Clean(hash) <==> Clean(f[0]) && Clean(f[1]);
  }

  // ---- use-crypt.c: get_shadow_line ----

  // The eight field accessors put together; each of them answers ":".
  const SHADOW_TEMPLATE: string := "::::::::"

  // How many of the template's characters fit a buffer of `size`.
  function Fitting(size: nat): nat {
    if size == 0 then 0 else if size - 1 < |SHADOW_TEMPLATE| then size - 1 else |SHADOW_TEMPLATE|
  }

  // snprintf into the caller's buffer: at most eight colons, cut to size - 1
  // characters, and a terminator.
  method GetShadowLine(buffer: array<char>, size: nat) returns (r: int)
    requires size <= buffer.Length
    modifies buffer
    ensures r == 0
    ensures size == 0 ==> buffer[..] == old(buffer[..])
    ensures size > 0 ==>
              buffer[..] == SHADOW_TEMPLATE[..Fitting(size)] + ['\0'] + old(buffer[Fitting(size) + 1..])
    ensures size > 0 ==>
              var n := if size < 9 then size - 1 else 8;
              && (forall k :: 0 <= k < n ==> buffer[k] == ':') && buffer[n] == '\0'
              && (forall k :: n < k < buffer.Length ==> buffer[k] == old(buffer[k]))
  {
    r := 0;
    if size > 0 {
      var n := Fitting(size);
      for i := 0 to n
        invariant forall k :: 0 <= k < i ==> buffer[k] == SHADOW_TEMPLATE[k]
        invariant forall k :: i <= k < buffer.Length ==> buffer[k] == old(buffer[k])
      {
        buffer[i] := SHADOW_TEMPLATE[i];
      }
      buffer[n] := '\0';
    }
  }

  lemma {:induction false} SplitColons(s: string)
    requires forall c <- s :: c == ':'
    ensures Count(s, ':') == |s|
    ensures forall f <- Split(s, ':') :: f == ""
  {
    if s != [] {
      assert s[0] in s && forall c <- s[1..] :: c in s;
      SplitColons(s[1..]);
    }
  }

  /** The line is nine empty shadow fields exactly when the buffer holds nine
      characters; a smaller buffer silently loses fields. */
  lemma ShadowTemplateFields(size: nat)
    ensures var fields := Split(SHADOW_TEMPLATE[..Fitting(size)], ':');
            && (forall f <- fields :: f == "")
            && (|fields| == 9 <==> size >= 9)
  {
    SplitColons(SHADOW_TEMPLATE[..Fitting(size)]);
  }
}
