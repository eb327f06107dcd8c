/** String handling used by the form and input guards: trimming, the
    blank-after-trim test, and reading a list of fields out of text by
    splitting at a separator, trimming each piece and dropping empty ones. */
module Text {

  /** Whitespace as this model understands it: space, tab, line feed,
      vertical tab, form feed and carriage return. */
  predicate IsSpace(c: char) {
    c == ' ' || c == '\t' || c == '\n' || c == '\U{B}' || c == '\U{C}' || c == '\r'
  }

  /** Every character is whitespace (the empty string included). */
  predicate IsBlank(s: string) {
    forall i :: 0 <= i < |s| ==> IsSpace(s[i])
  }

  /** Neither end is whitespace. */
  predicate IsTrimmed(s: string) {
    |s| == 0 || (!IsSpace(s[0]) && !IsSpace(s[|s| - 1]))
  }

  /** `s` with its leading whitespace removed. */
  function TrimStart(s: string): (r: string)
    ensures |r| <= |s|
    ensures |r| == 0 || !IsSpace(r[0])
    ensures r == [] <==> IsBlank(s)
  {
    if |s| > 0 && IsSpace(s[0]) then
      assert IsBlank(s) <==> IsBlank(s[1..]);
      TrimStart(s[1..])
    else s
  }

  /** `s` with its trailing whitespace removed. */
  function TrimEnd(s: string): (r: string)
    ensures |r| <= |s|
    ensures |r| == 0 || !IsSpace(r[|r| - 1])
    ensures |r| > 0 ==> r[0] == s[0]
    ensures r == [] <==> IsBlank(s)
  {
    if |s| > 0 && IsSpace(s[|s| - 1]) then
      assert IsBlank(s) <==> IsBlank(s[..|s| - 1]);
      TrimEnd(s[..|s| - 1])
    else s
  }

  /** JavaScript's `String.prototype.trim` over the whitespace above. */
  function Trim(s: string): (r: string)
    ensures IsTrimmed(r)
    ensures r == [] <==> IsBlank(s)
  {
    TrimEnd(TrimStart(s))
  }

  /** What `TrimStart` removes is a whitespace prefix. */
  lemma {:induction false} TrimStartSlice(s: string)
    ensures TrimStart(s) == s[|s| - |TrimStart(s)|..]
    ensures IsBlank(s[..|s| - |TrimStart(s)|])
  {
    if |s| > 0 && IsSpace(s[0]) {
      TrimStartSlice(s[1..]);
      assert s[1..][..|s| - 1 - |TrimStart(s)|] == s[1..|s| - |TrimStart(s)|];
    }
  }

  /** What `TrimEnd` removes is a whitespace suffix. */
  lemma {:induction false} TrimEndSlice(s: string)
    ensures TrimEnd(s) == s[..|TrimEnd(s)|]
    ensures IsBlank(s[|TrimEnd(s)|..])
  {
    if |s| > 0 && IsSpace(s[|s| - 1]) {
      var t := s[..|s| - 1];
      var r := TrimEnd(t);
      assert TrimEnd(s) == r;
      TrimEndSlice(t);
      assert t[..|r|] == s[..|r|];
      forall i | |r| <= i < |s| ensures IsSpace(s[i]) {
        if i < |s| - 1 {
          assert s[i] == t[|r|..][i - |r|];
        }
      }
    }
  }

  /** The trimmed string is the middle slice of `s` left after cutting a
      whitespace prefix and a whitespace suffix. */
  lemma TrimIsSlice(s: string) returns (i: nat)
    ensures i + |Trim(s)| <= |s|
    ensures Trim(s) == s[i..i + |Trim(s)|]
    ensures IsBlank(s[..i]) && IsBlank(s[i + |Trim(s)|..])
  {
    var t := TrimStart(s);
    var r := TrimEnd(t);
    TrimStartSlice(s);
    TrimEndSlice(t);
    i := |s| - |t|;
    assert s[i + |r|..] == t[|r|..];
  }

  /** Trimming introduces no character that was not in the original. */
  lemma TrimChars(s: string, c: char)
    requires c !in s
    ensures c !in Trim(s)
  {
    var i := TrimIsSlice(s);
    var r := Trim(s);
    assert forall k :: 0 <= k < |r| ==> r[k] == s[i + k];
  }

  /** Trimming leaves an already trimmed string as it is. */
  lemma TrimOfTrimmed(s: string)
    requires IsTrimmed(s)
    ensures Trim(s) == s
  {
    assert TrimStart(s) == s;
  }

  /** Trimming twice is trimming once. */
  lemma TrimIdempotent(s: string)
    ensures Trim(Trim(s)) == Trim(s)
  {
    TrimOfTrimmed(Trim(s));
  }

  /** JavaScript's `String.prototype.split` with a one-character separator:
      the maximal separator-free pieces, empty ones included; at least one. */
  function Split(s: string, sep: char): (parts: seq<string>)
    ensures |parts| >= 1
  {
    if |s| == 0 then [[]]
    else
      var rest := Split(s[1..], sep);
      if s[0] == sep then [[]] + rest
      else [[s[0]] + rest[0]] + rest[1..]
  }

  /** No piece of a split holds the separator. */
  lemma {:induction false} SplitAvoids(s: string, sep: char)
    ensures forall p :: p in Split(s, sep) ==> sep !in p
  {
    if |s| > 0 {
      SplitAvoids(s[1..], sep);
      var rest := Split(s[1..], sep);
      if s[0] != sep {
        assert rest[0] in rest;
        assert forall p :: p in rest[1..] ==> p in rest;
      }
    }
  }

  /** The pieces glued back with the separator between them. */
  function Join(parts: seq<string>, sep: char): string {
    if |parts| == 0 then []
    else if |parts| == 1 then parts[0]
    else parts[0] + [sep] + Join(parts[1..], sep)
  }

  /** Joining the pieces of a split gives back the original string. */
  lemma {:induction false} JoinSplit(s: string, sep: char)
    ensures Join(Split(s, sep), sep) == s
  {
    if |s| > 0 {
      var x := s[1..];
      assert s == [s[0]] + x;
      JoinSplit(x, sep);
      if s[0] == sep {
        SplitSep(x, sep);
        JoinCons([], Split(x, sep), sep);
      } else {
        SplitOther(s[0], x, sep);
        JoinFirst(s[0], Split(x, sep), sep);
      }
    }
  }

  /** Joining pieces with one more piece in front. */
  lemma JoinCons(h: string, rest: seq<string>, sep: char)
    requires |rest| >= 1
    ensures Join([h] + rest, sep) == h + [sep] + Join(rest, sep)
  {
    assert ([h] + rest)[0] == h && ([h] + rest)[1..] == rest;
  }

  /** Joining pieces whose first piece has one more character in front. */
  lemma JoinFirst(c: char, rest: seq<string>, sep: char)
    requires |rest| >= 1
    ensures Join([[c] + rest[0]] + rest[1..], sep) == [c] + Join(rest, sep)
  {
    var parts := [[c] + rest[0]] + rest[1..];
    assert parts[0] == [c] + rest[0] && parts[1..] == rest[1..];
    if |rest| > 1 {
      assert rest == [rest[0]] + rest[1..];
      JoinCons(rest[0], rest[1..], sep);
      JoinCons([c] + rest[0], rest[1..], sep);
    }
  }

  /** Splitting a string that starts with a separator-free prefix. */
  lemma {:induction false} SplitPrefix(a: string, b: string, sep: char)
    requires sep !in a
    ensures Split(a + b, sep) == [a + Split(b, sep)[0]] + Split(b, sep)[1..]
  {
    if |a| > 0 {
      assert (a + b)[0] == a[0];
      assert (a + b)[1..] == a[1..] + b;
      SplitPrefix(a[1..], b, sep);
      assert [a[0]] + (a[1..] + Split(b, sep)[0]) == a + Split(b, sep)[0];
    } else {
      var parts := Split(b, sep);
      assert a + b == b;
      assert a + parts[0] == parts[0];
      assert parts == [parts[0]] + parts[1..];
    }
  }

  /** Splitting the join of separator-free pieces gives back the pieces. */
  lemma {:induction false} SplitJoin(parts: seq<string>, sep: char)
    requires |parts| >= 1
    requires forall p :: p in parts ==> sep !in p
    ensures Split(Join(parts, sep), sep) == parts
  {
    if |parts| == 1 {
      SplitPrefix(parts[0], [], sep);
      assert parts[0] + [] == parts[0];
    } else {
      var tail := Join(parts[1..], sep);
      SplitJoin(parts[1..], sep);
      assert Join(parts, sep) == parts[0] + ([sep] + tail);
      SplitPrefix(parts[0], [sep] + tail, sep);
      assert ([sep] + tail)[1..] == tail;
      assert Split([sep] + tail, sep) == [[]] + parts[1..];
      assert parts[0] + [] == parts[0];
      assert parts == [parts[0]] + parts[1..];
    }
  }

  /** Splitting text that starts with the character `c`. */
  lemma SplitCons(c: char, t: string, sep: char)
    ensures Split([c] + t, sep) ==
      if c == sep then [[]] + Split(t, sep)
      else [[c] + Split(t, sep)[0]] + Split(t, sep)[1..]
  {
    assert ([c] + t)[0] == c && ([c] + t)[1..] == t;
  }

  /** A separator splits the text into the pieces before it and the
      pieces after it. */
  lemma {:induction false} SplitCat(a: string, b: string, sep: char)
    ensures Split(a + [sep] + b, sep) == Split(a, sep) + Split(b, sep)
  {
    if |a| == 0 {
      assert a + [sep] + b == [sep] + b;
      SplitCons(sep, b, sep);
      assert Split([], sep) == [[]];
    } else {
      SplitCat(a[1..], b, sep);
      SplitCatStep(a, b, sep);
    }
  }

  /** The inductive step of `SplitCat`: one more character in front. */
  lemma SplitCatStep(a: string, b: string, sep: char)
    requires |a| > 0
    requires Split(a[1..] + [sep] + b, sep) == Split(a[1..], sep) + Split(b, sep)
    ensures Split(a + [sep] + b, sep) == Split(a, sep) + Split(b, sep)
  {
    assert a + [sep] + b == [a[0]] + (a[1..] + [sep] + b);
    assert a == [a[0]] + a[1..];
    SplitConsCat(a[0], a[1..] + [sep] + b, a[1..], Split(b, sep), sep);
  }

  /** Putting a character in front of a text whose pieces are those of
      `u` followed by `t`. */
  lemma SplitConsCat(c: char, x: string, u: string, t: seq<string>, sep: char)
    requires Split(x, sep) == Split(u, sep) + t
    ensures Split([c] + x, sep) == Split([c] + u, sep) + t
  {
    if c == sep {
      SplitSepCat(x, u, t, sep);
    } else {
      SplitOtherCat(c, x, u, t, sep);
    }
  }

  /** `SplitConsCat` for a separator in front: a new empty first piece. */
  lemma SplitSepCat(x: string, u: string, t: seq<string>, sep: char)
    requires Split(x, sep) == Split(u, sep) + t
    ensures Split([sep] + x, sep) == Split([sep] + u, sep) + t
  {
    SplitSep(x, sep);
    SplitSep(u, sep);
    ConsCat([], Split(u, sep), t);
  }

  /** Splitting text whose first character is the separator. */
  lemma SplitSep(x: string, sep: char)
    ensures Split([sep] + x, sep) == [[]] + Split(x, sep)
  {
    assert ([sep] + x)[0] == sep && ([sep] + x)[1..] == x;
  }

  /** A new first element commutes with appending more elements. */
  lemma ConsCat<T>(h: T, s: seq<T>, t: seq<T>)
    ensures [h] + (s + t) == ([h] + s) + t
  {
  }

  /** `SplitConsCat` for any other character in front: it joins the first piece. */
  lemma SplitOtherCat(c: char, x: string, u: string, t: seq<string>, sep: char)
    requires c != sep
    requires Split(x, sep) == Split(u, sep) + t
    ensures Split([c] + x, sep) == Split([c] + u, sep) + t
  {
    SplitOther(c, x, sep);
    SplitOther(c, u, sep);
    JoinFirstCat([c], Split(u, sep), t);
  }

  /** Splitting text whose first character is not the separator. */
  lemma SplitOther(c: char, x: string, sep: char)
    requires c != sep
    ensures Split([c] + x, sep) == [[c] + Split(x, sep)[0]] + Split(x, sep)[1..]
  {
    assert ([c] + x)[0] == c && ([c] + x)[1..] == x;
  }

  /** Prefixing the first piece commutes with appending more pieces. */
  lemma JoinFirstCat<T>(h: seq<T>, s: seq<seq<T>>, t: seq<seq<T>>)
    requires |s| >= 1
    ensures [h + (s + t)[0]] + (s + t)[1..] == ([h + s[0]] + s[1..]) + t
  {
    assert (s + t)[0] == s[0];
    assert (s + t)[1..] == s[1..] + t;
  }

  /** Text without the separator is a single piece. */
  lemma SplitOne(s: string, sep: char)
    requires sep !in s
    ensures Split(s, sep) == [s]
  {
    SplitPrefix(s, [], sep);
    assert s + [] == s;
    assert Split([], sep) == [[]];
  }

  /** Every piece trimmed, and the pieces left empty dropped. */
  function Clean(parts: seq<string>): (r: seq<string>)
    ensures |r| <= |parts|
    ensures forall p :: p in r ==> p != [] && IsTrimmed(p)
  {
    if |parts| == 0 then []
    else
      var t := Trim(parts[0]);
      (if t == [] then [] else [t]) + Clean(parts[1..])
  }

  /** Cleaning keeps pieces that are already non-empty and trimmed. */
  lemma {:induction false} CleanTidy(parts: seq<string>)
    requires forall p :: p in parts ==> p != [] && IsTrimmed(p)
    ensures Clean(parts) == parts
  {
    if |parts| > 0 {
      var rest := parts[1..];
      TrimOfTrimmed(parts[0]);
      assert forall p :: p in rest ==> p in parts;
      CleanTidy(rest);
      assert Clean(parts) == [parts[0]] + Clean(rest);
      assert parts == [parts[0]] + rest;
    }
  }

  /** Cleaning works piece by piece, so it distributes over concatenation. */
  lemma {:induction false} CleanConcat(a: seq<string>, b: seq<string>)
    ensures Clean(a + b) == Clean(a) + Clean(b)
  {
    if |a| > 0 {
      assert (a + b)[0] == a[0];
      assert (a + b)[1..] == a[1..] + b;
      CleanConcat(a[1..], b);
      var t := Trim(a[0]);
      var h := if t == [] then [] else [t];
      assert Clean(a + b) == h + Clean(a[1..] + b);
      assert Clean(a) == h + Clean(a[1..]);
      assert h + (Clean(a[1..]) + Clean(b)) == (h + Clean(a[1..])) + Clean(b);
    } else {
      assert a + b == b;
    }
  }

  /** Cleaning leaves nothing exactly when every piece is blank. */
  lemma {:induction false} CleanEmpty(parts: seq<string>)
    ensures Clean(parts) == [] <==> forall p :: p in parts ==> IsBlank(p)
  {
    if |parts| > 0 {
      CleanEmpty(parts[1..]);
      assert forall p :: p in parts <==> p == parts[0] || p in parts[1..];
    }
  }

  /** Text is blank exactly when both of its halves are. */
  lemma BlankConcat(a: string, b: string)
    ensures IsBlank(a + b) <==> IsBlank(a) && IsBlank(b)
  {
    if IsBlank(a) && IsBlank(b) {
      forall i | 0 <= i < |a + b| ensures IsSpace((a + b)[i]) {
        if i >= |a| {
          assert (a + b)[i] == b[i - |a|];
        }
      }
    }
    if IsBlank(a + b) {
      forall i | 0 <= i < |a| ensures IsSpace(a[i]) {
        assert (a + b)[i] == a[i];
      }
      forall i | 0 <= i < |b| ensures IsSpace(b[i]) {
        assert (a + b)[|a| + i] == b[i];
      }
    }
  }

  /** Glued with a whitespace separator, the pieces are blank exactly
      when each of them is. */
  lemma {:induction false} JoinBlank(parts: seq<string>, sep: char)
    requires IsSpace(sep)
    ensures IsBlank(Join(parts, sep)) <==> forall p :: p in parts ==> IsBlank(p)
  {
    if |parts| > 1 {
      JoinBlank(parts[1..], sep);
      BlankConcat(parts[0] + [sep], Join(parts[1..], sep));
      BlankConcat(parts[0], [sep]);
      assert forall p :: p in parts <==> p == parts[0] || p in parts[1..];
    }
  }

  /** Cleaning introduces no character absent from every piece. */
  lemma {:induction false} CleanAvoids(parts: seq<string>, c: char)
    requires forall p :: p in parts ==> c !in p
    ensures forall p :: p in Clean(parts) ==> c !in p
  {
    if |parts| > 0 {
      TrimChars(parts[0], c);
      CleanAvoids(parts[1..], c);
    }
  }

  /** The non-blank trimmed fields of `s` between separators, as the reel
      form reads quiz options (one per line) and the course form reads tags
      (comma separated). */
  function Fields(s: string, sep: char): (r: seq<string>)
    ensures forall p :: p in r ==> p != [] && IsTrimmed(p) && sep !in p
  {
    SplitAvoids(s, sep);
    CleanAvoids(Split(s, sep), sep);
    Clean(Split(s, sep))
  }

  /** Text without the separator is one field, its trimmed self, unless
      it is blank. */
  lemma FieldsOne(s: string, sep: char)
    requires sep !in s
    ensures Fields(s, sep) == if IsBlank(s) then [] else [Trim(s)]
  {
    SplitOne(s, sep);
    assert Clean([s]) == (if Trim(s) == [] then [] else [Trim(s)]) + Clean([]);
  }

  /** The fields before a separator come first, then the fields after it. */
  lemma FieldsCat(a: string, b: string, sep: char)
    ensures Fields(a + [sep] + b, sep) == Fields(a, sep) + Fields(b, sep)
  {
    SplitCat(a, b, sep);
    CleanConcat(Split(a, sep), Split(b, sep));
  }

  /** With a whitespace separator, text has no fields exactly when it is blank. */
  lemma FieldsEmpty(s: string, sep: char)
    requires IsSpace(sep)
    ensures Fields(s, sep) == [] <==> IsBlank(s)
  {
    CleanEmpty(Split(s, sep));
    JoinSplit(s, sep);
    JoinBlank(Split(s, sep), sep);
  }

  /** Fields are recovered exactly from their join: the form reads back
      any list of non-empty, trimmed, separator-free entries written with
      the separator between them. */
  lemma FieldsJoin(parts: seq<string>, sep: char)
    requires forall p :: p in parts ==> p != [] && IsTrimmed(p) && sep !in p
    ensures Fields(Join(parts, sep), sep) == parts
  {
    if |parts| == 0 {
      assert Split([], sep) == [[]];
      assert Trim([]) == [];
    } else {
      SplitJoin(parts, sep);
      CleanTidy(parts);
    }
  }
}
