/** The three layers that bound a widget's name: the transport rule of the
    published contract, the service's trim-and-count, and the table's CHECKs.
    A name is valid UTF-8, here one char per Unicode code point. */
module Names {
  import opened Wrappers

  const MAXIMUM_NAME_LENGTH := 120

  /** unicode.IsSpace, which strings.TrimSpace trims. */
  predicate IsSpace(c: char) {
    || '\t' <= c <= '\r' || c == ' ' || c == '\U{0085}' || c == '\U{00A0}' || c == '\U{1680}'
    || '\U{2000}' <= c <= '\U{200A}' || c == '\U{2028}' || c == '\U{2029}' || c == '\U{202F}'
    || c == '\U{205F}' || c == '\U{3000}'
  }

  function TrimLeft(s: string): string {
    if s != "" && IsSpace(s[0]) then TrimLeft(s[1..]) else s
  }

  function TrimRight(s: string): string {
    if s != "" && IsSpace(s[|s| - 1]) then TrimRight(s[..|s| - 1]) else s
  }

  function TrimSpace(s: string): string { TrimRight(TrimLeft(s)) }

  /** PostgreSQL's btrim(text), which removes blanks only. */
  function BtrimLeft(s: string): string { if s != "" && s[0] == ' ' then BtrimLeft(s[1..]) else s }

  function BtrimRight(s: string): string {
    if s != "" && s[|s| - 1] == ' ' then BtrimRight(s[..|s| - 1]) else s
  }

  function Btrim(s: string): string { BtrimRight(BtrimLeft(s)) }

  /** The table's two CHECK constraints on a name. */
  predicate NotBlankCheck(name: string) { |Btrim(name)| > 0 }

  predicate LengthCheck(name: string) { |name| <= 120 }

  predicate SatisfiesChecks(name: string) { NotBlankCheck(name) && LengthCheck(name) }

  /** The transport rule `required,max=120` on the request's name. */
  predicate TransportAccepts(name: string) { name != "" && |name| <= 120 }

  /** The name Service.Create hands to the repository, or None for ErrInvalidName. */
  function ServiceName(name: string): Option<string> {
    var trimmed := TrimSpace(name);
    if trimmed == "" || |trimmed| > MAXIMUM_NAME_LENGTH then None else Some(trimmed)
  }

  predicate AllSpace(s: string) { forall i :: 0 <= i < |s| ==> IsSpace(s[i]) }

  /** The longest stretch of a string that starts and ends with no space:
      what trimming should return, said without saying how. */
  ghost predicate IsTrimmed(s: string, t: string) {
    exists i, j :: 0 <= i <= j <= |s| && t == s[i..j] && AllSpace(s[..i]) && AllSpace(s[j..])
                   && (t != "" ==> !IsSpace(t[0]) && !IsSpace(t[|t| - 1]))
  }

  // ---- Laws ----

  /** The space characters, by code point: U+0009 to U+000D, U+0020, U+0085, U+00A0
      and the spaces and separators beyond Latin-1. */
  lemma IsSpaceExactly(c: char)
    ensures IsSpace(c) <==>
            (c as int) in {9, 10, 11, 12, 13, 32, 133, 160, 5760, 8192, 8193, 8194, 8195, 8196, 8197, 8198, 8199, 8200, 8201,
                           8202, 8232, 8233, 8239, 8287, 12288}
  {
  }

  lemma {:induction false} TrimLeftCut(s: string) returns (i: nat)
    ensures i <= |s| && TrimLeft(s) == s[i..] && AllSpace(s[..i])
    ensures TrimLeft(s) != "" ==> !IsSpace(TrimLeft(s)[0])
  {
    if s != "" && IsSpace(s[0]) {
      var k := TrimLeftCut(s[1..]);
      i := k + 1;
      assert s[1..][k..] == s[i..];
      assert s[..i] == [s[0]] + s[1..][..k];
    } else {
      i := 0;
    }
  }

  lemma {:induction false} TrimRightCut(s: string) returns (j: nat)
    ensures j <= |s| && TrimRight(s) == s[..j] && AllSpace(s[j..])
    ensures TrimRight(s) != "" ==> !IsSpace(TrimRight(s)[|TrimRight(s)| - 1])
  {
    if s != "" && IsSpace(s[|s| - 1]) {
      j := TrimRightCut(s[..|s| - 1]);
      assert s[..|s| - 1][..j] == s[..j];
      assert s[j..] == s[..|s| - 1][j..] + [s[|s| - 1]];
    } else {
      j := |s|;
    }
  }

  lemma TrimSpaceIsTrimmed(s: string)
    ensures IsTrimmed(s, TrimSpace(s))
  {
    var i := TrimLeftCut(s);
    var left := TrimLeft(s);
    var j := TrimRightCut(left);
    assert left[..j] == s[i..i + j] && left[j..] == s[i + j..];
  }

  /** Trimming leaves nothing exactly of the all-whitespace strings. */
  lemma TrimmedEmpty(s: string)
    ensures TrimSpace(s) == "" <==> AllSpace(s)
    ensures |TrimSpace(s)| <= |s|
  {
    TrimSpaceIsTrimmed(s);
    var t := TrimSpace(s);
    var i, j :| 0 <= i <= j <= |s| && t == s[i..j] && AllSpace(s[..i]) && AllSpace(s[j..])
                && (t != "" ==> !IsSpace(t[0]) && !IsSpace(t[|t| - 1]));
    if t != "" {
      assert s[i] == t[0];
    } else {
      assert s == s[..i] + s[j..];
    }
  }

  lemma {:induction false} BtrimKeeps(s: string)
    requires s != "" && s[0] != ' '
    ensures Btrim(s) != ""
  {
    BtrimRightKeeps(s);
  }

  lemma {:induction false} BtrimRightKeeps(s: string)
    requires s != "" && s[0] != ' '
    ensures BtrimRight(s) != ""
  {
    if s[|s| - 1] == ' ' {
      BtrimRightKeeps(s[..|s| - 1]);
    }
  }

  /** Every name the service passes on satisfies both CHECKs, so the database
      never refuses a name the service accepted. */
  lemma ServiceNameSatisfiesChecks(name: string)
    requires ServiceName(name).Some?
    ensures SatisfiesChecks(ServiceName(name).value)
  {
    TrimSpaceIsTrimmed(name);
    BtrimKeeps(ServiceName(name).value);
  }

  lemma {:induction false} BtrimmedBlank(s: string)
    requires forall i :: 0 <= i < |s| ==> s[i] == ' '
    ensures Btrim(s) == ""
  {
    if s != "" {
      BtrimmedBlank(s[1..]);
    }
  }

  lemma {:induction false} BtrimmedKept(s: string, i: nat)
    requires i < |s| && s[i] != ' '
    ensures Btrim(s) != ""
  {
    if s[0] == ' ' {
      BtrimmedKept(s[1..], i - 1);
    } else {
      BtrimKeeps(s);
    }
  }

  /** What the two CHECKs ask: at most 120 code points, one of them no blank. */
  lemma ChecksExactly(name: string)
    ensures SatisfiesChecks(name) <==> |name| <= 120 && exists i :: 0 <= i < |name| && name[i] != ' '
  {
    if i :| 0 <= i < |name| && name[i] != ' ' {
      BtrimmedKept(name, i);
    } else {
      BtrimmedBlank(name);
    }
  }

  lemma TrimmedStretch(s: string, t: string) returns (i: nat, j: nat)
    requires IsTrimmed(s, t)
    ensures i <= j <= |s| && t == s[i..j] && forall n :: 0 <= n < |s| && !(i <= n < j) ==> IsSpace(s[n])
    ensures i < j ==> !IsSpace(s[i]) && !IsSpace(s[j - 1])
  {
    hide IsSpace;
    i, j :| 0 <= i <= j <= |s| && t == s[i..j] && AllSpace(s[..i]) && AllSpace(s[j..])
            && (t != "" ==> !IsSpace(t[0]) && !IsSpace(t[|t| - 1]));
    assert forall n :: 0 <= n < i ==> s[n] == s[..i][n];
    assert forall n :: j <= n < |s| ==> s[n] == s[j..][n - j];
  }

  /** A string has one trimmed stretch. */
  lemma IsTrimmedUnique(s: string, t: string, u: string)
    requires IsTrimmed(s, t) && IsTrimmed(s, u)
    ensures t == u
  {
    hide IsSpace, IsTrimmed;
    var i, j := TrimmedStretch(s, t);
    var k, l := TrimmedStretch(s, u);
    assert i < j ==> k <= i < l && k <= j - 1 < l;
    assert k < l ==> i <= k < j && i <= l - 1 < j;
  }

  /** Which name the service passes on: the trimmed stretch of what was submitted,
      exactly if it has 1 to 120 code points. */
  lemma ServiceNameExactly(name: string)
    ensures ServiceName(name).Some? ==> IsTrimmed(name, ServiceName(name).value)
    ensures ServiceName(name).Some? <==> exists t :: IsTrimmed(name, t) && 1 <= |t| <= 120
  {
    TrimSpaceIsTrimmed(name);
    if t :| IsTrimmed(name, t) && 1 <= |t| <= 120 {
      IsTrimmedUnique(name, t, TrimSpace(name));
    }
  }

  /** Of the names the transport rule accepts, the service refuses exactly those
      that are all whitespace: trimming never makes a name too long. */
  lemma ServiceRefusesBlank(name: string)
    requires TransportAccepts(name)
    ensures ServiceName(name) == None <==> AllSpace(name)
  {
    TrimmedEmpty(name);
  }

  lemma {:induction false} TrimIdempotent(s: string)
    requires s != "" ==> !IsSpace(s[0]) && !IsSpace(s[|s| - 1])
    ensures TrimSpace(s) == s
  {
  }

  /** An accepted name is stored as a fixed point: submitting the stored name
      again stores the same name. */
  lemma ServiceNameStable(name: string)
    requires ServiceName(name).Some?
    ensures ServiceName(ServiceName(name).value) == ServiceName(name)
  {
    TrimSpaceIsTrimmed(name);
    TrimIdempotent(ServiceName(name).value);
  }
}
