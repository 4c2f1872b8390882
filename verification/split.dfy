/** `split`: a string cut at every delimiter character into the non-empty
    pieces between them.  The three overloads differ only in how the
    delimiters are given (a string, a NUL-terminated C string, a single
    character); each becomes the set of delimiter characters here, and all
    three run the same loop.

    `Tokens` is the reference definition: it reads the string one character
    at a time, closing the current piece at each delimiter. */
module Split {

  /** `str.find_first_of(dlm, f)`: the first position from `f` on that holds
      a delimiter, with `npos` already replaced by `|s|` as the loop does. */
  function FindFirstOf(s: string, dlm: set<char>, f: nat): (b: nat)
    requires f <= |s|
    ensures f <= b <= |s|
    ensures forall i :: f <= i < b ==> s[i] !in dlm
    ensures b < |s| ==> s[b] in dlm
    decreases |s| - f
  {
    if f == |s| then |s|
    else if s[f] in dlm then f
    else FindFirstOf(s, dlm, f + 1)
  }

  /** The pieces closed so far and the piece being read, after the
      characters of `s`, one at a time. */
  function Scan(s: string, dlm: set<char>): (st: (seq<string>, string))
    decreases |s|
  {
    if s == [] then ([], [])
    else
      var prev := Scan(s[..|s| - 1], dlm);
      var c := s[|s| - 1];
      if c !in dlm then (prev.0, prev.1 + [c])
      else if prev.1 == [] then (prev.0, [])
      else (prev.0 + [prev.1], [])
  }

  /** The maximal runs of non-delimiters of `s`, in order. */
  function Tokens(s: string, dlm: set<char>): (ts: seq<string>)
  {
    var st := Scan(s, dlm);
    if st.1 == [] then st.0 else st.0 + [st.1]
  }

  /** The characters of `s` that are not delimiters. */
  function Strip(s: string, dlm: set<char>): (r: string)
    ensures forall i :: 0 <= i < |r| ==> r[i] !in dlm
    decreases |s|
  {
    if s == [] then []
    else if s[|s| - 1] in dlm then Strip(s[..|s| - 1], dlm)
    else Strip(s[..|s| - 1], dlm) + [s[|s| - 1]]
  }

  function Concat(ts: seq<string>): (r: string)
  {
    if ts == [] then [] else Concat(ts[..|ts| - 1]) + ts[|ts| - 1]
  }

  /** Pieces neither empty nor holding a delimiter. */
  ghost predicate Pieces(ts: seq<string>, dlm: set<char>)
  {
    forall k :: 0 <= k < |ts| ==> ts[k] != [] && forall i :: 0 <= i < |ts[k]| ==> ts[k][i] !in dlm
  }

  lemma ConcatSnoc(ts: seq<string>, t: string)
    ensures Concat(ts + [t]) == Concat(ts) + t
  {
    assert (ts + [t])[..|ts|] == ts;
  }

  /** What the scan has read so far: non-empty, delimiter-free pieces and a
      delimiter-free current piece, which together hold exactly the
      non-delimiters read. */
  lemma {:induction false} ScanShape(s: string, dlm: set<char>)
    ensures Pieces(Scan(s, dlm).0, dlm)
    ensures forall i :: 0 <= i < |Scan(s, dlm).1| ==> Scan(s, dlm).1[i] !in dlm
    ensures Concat(Scan(s, dlm).0) + Scan(s, dlm).1 == Strip(s, dlm)
    decreases |s|
  {
    if s != [] {
      var prev := Scan(s[..|s| - 1], dlm);
      ScanShape(s[..|s| - 1], dlm);
      if s[|s| - 1] in dlm && prev.1 != [] {
        ConcatSnoc(prev.0, prev.1);
      }
    }
  }

  /** No piece is empty, none holds a delimiter, and the pieces put back
      together are the string without its delimiters. */
  lemma TokensShape(s: string, dlm: set<char>)
    ensures Pieces(Tokens(s, dlm), dlm)
    ensures Concat(Tokens(s, dlm)) == Strip(s, dlm)
  {
    var st := Scan(s, dlm);
    ScanShape(s, dlm);
    if st.1 != [] {
      ConcatSnoc(st.0, st.1);
    }
  }

  /** An empty string has no pieces. */
  lemma TokensOfEmpty(dlm: set<char>)
    ensures Tokens([], dlm) == []
  {
  }

  lemma {:induction false} ScanWithout(s: string, dlm: set<char>)
    requires forall i :: 0 <= i < |s| ==> s[i] !in dlm
    ensures Scan(s, dlm) == ([], s)
    decreases |s|
  {
    if s != [] {
      ScanWithout(s[..|s| - 1], dlm);
      assert s[..|s| - 1] + [s[|s| - 1]] == s;
    }
  }

  /** A non-empty string without delimiters is its only piece. */
  lemma TokensWithout(s: string, dlm: set<char>)
    requires s != [] && forall i :: 0 <= i < |s| ==> s[i] !in dlm
    ensures Tokens(s, dlm) == [s]
  {
    ScanWithout(s, dlm);
  }

  /** Reading the delimiter-free run `s[f..b]` after a delimiter (or from
      the start) only grows the current piece. */
  lemma {:induction false} ScanRun(s: string, dlm: set<char>, f: nat, b: nat, done: seq<string>)
    requires f <= b <= |s| && Scan(s[..f], dlm) == (done, [])
    requires forall i :: f <= i < b ==> s[i] !in dlm
    ensures Scan(s[..b], dlm) == (done, s[f..b])
    decreases b
  {
    if b > f {
      ScanRun(s, dlm, f, b - 1, done);
      var t := s[..b];
      assert t[..|t| - 1] == s[..b - 1];
      var prev := Scan(t[..|t| - 1], dlm);
      assert prev == (done, s[f..b - 1]);
      assert t[|t| - 1] == s[b - 1] && s[b - 1] !in dlm;
      assert Scan(t, dlm) == (prev.0, prev.1 + [s[b - 1]]);
      assert s[f..b - 1] + [s[b - 1]] == s[f..b];
    } else {
      assert s[f..b] == [];
    }
  }

  /** One pass of the loop: the run from `f` to the next delimiter `b`
      becomes a piece when it is not empty, and the scan then stands after
      `b`, or, at the end of the string, has produced every piece. */
  lemma SplitStep(s: string, dlm: set<char>, f: nat, b: nat, done: seq<string>)
    requires f <= b <= |s| && Scan(s[..f], dlm) == (done, [])
    requires forall i :: f <= i < b ==> s[i] !in dlm
    requires b < |s| ==> s[b] in dlm
    ensures var done' := if f < b then done + [s[f..b]] else done;
      if b < |s| then Scan(s[..b + 1], dlm) == (done', []) else Tokens(s, dlm) == done'
  {
    ScanRun(s, dlm, f, b, done);
    if b < |s| {
      assert s[..b + 1][..b] == s[..b];
    } else {
      assert s[..b] == s;
    }
  }

  /** The loop of `split`, for the delimiter set `dlm`: exactly the pieces
      `Tokens` reads. */
  method SplitBy(str: string, dlm: set<char>) returns (rvec: seq<string>)
    ensures rvec == Tokens(str, dlm)
  {
    rvec := [];
    var f: nat := 0;
    while f < |str|
      invariant f <= |str| ==> Scan(str[..f], dlm) == (rvec, [])
      invariant f > |str| ==> rvec == Tokens(str, dlm)
      decreases |str| + 1 - f
    {
      var b := FindFirstOf(str, dlm, f);
      SplitStep(str, dlm, f, b, rvec);
      if f < b {
        var s := str[f..b];
        rvec := rvec + [s];
      }
      f := b + 1;
    }
    if f == |str| {
      assert str[..f] == str;
    }
  }

  /** The characters of a delimiter string. */
  function Chars(dlm: string): (cs: set<char>)
    ensures forall c :: c in cs <==> exists i :: 0 <= i < |dlm| && dlm[i] == c
  {
    set i | 0 <= i < |dlm| :: dlm[i]
  }

  /** The characters of a C string: those before its first NUL. */
  function CChars(dlm: seq<char>): (cs: set<char>)
    ensures '\0' !in cs
    ensures forall i :: 0 <= i < |dlm| && (forall j :: 0 <= j <= i ==> dlm[j] != '\0') ==> dlm[i] in cs
    decreases |dlm|
  {
    if dlm == [] || dlm[0] == '\0' then {} else {dlm[0]} + CChars(dlm[1..])
  }

  /** A delimiter string without NUL names the same characters as a C
      string as it does as a `basic_string`, so the first two overloads
      agree on it; a single character is the string of that character. */
  lemma {:induction false} SameDelimiters(dlm: string)
    requires forall i :: 0 <= i < |dlm| ==> dlm[i] != '\0'
    ensures CChars(dlm) == Chars(dlm)
    ensures forall c :: Chars([c]) == {c}
    decreases |dlm|
  {
    if dlm != [] {
      SameDelimiters(dlm[1..]);
      assert Chars(dlm) == {dlm[0]} + Chars(dlm[1..]) by {
        forall c | c in Chars(dlm)
          ensures c in {dlm[0]} + Chars(dlm[1..])
        {
          var i :| 0 <= i < |dlm| && dlm[i] == c;
          if i > 0 {
            assert dlm[1..][i - 1] == c;
          }
        }
        forall c | c in Chars(dlm[1..])
          ensures c in Chars(dlm)
        {
          var i :| 0 <= i < |dlm| - 1 && dlm[1..][i] == c;
          assert dlm[i + 1] == c;
        }
      }
    }
    forall c
      ensures Chars([c]) == {c}
    {
      assert [c][0] == c;
    }
  }

  /** `split(str, dlm)` with a `basic_string` of delimiters. */
  method SplitString(str: string, dlm: string) returns (rvec: seq<string>)
    ensures rvec == Tokens(str, Chars(dlm))
  {
    rvec := SplitBy(str, Chars(dlm));
  }

  /** `split(str, dlm)` with a C string of delimiters. */
  method SplitCString(str: string, dlm: seq<char>) returns (rvec: seq<string>)
    ensures rvec == Tokens(str, CChars(dlm))
  {
    rvec := SplitBy(str, CChars(dlm));
  }

  /** `split(str, dlm)` with a single delimiter character. */
  method SplitChar(str: string, dlm: char) returns (rvec: seq<string>)
    ensures rvec == Tokens(str, {dlm})
  {
    rvec := SplitBy(str, {dlm});
  }
}
