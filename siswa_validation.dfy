/** The validation rules that the student ("siswa") controller applies to a
    request body: `nama`, `kelas` and `umur`, each with its rule list, in the
    "required" form used on creation and the "sometimes" form used on update.
    The regular expressions are stated as predicates over characters. */
module SiswaValidation {

  datatype Option<+T> = None | Some(value: T)

  /** One value of the decoded request body. `Other` is any value that is
      neither null, an integer nor a string (a boolean, a float, an array). */
  datatype Value = Null | Int(n: int) | Str(s: string) | Other

  /** The request body: field name to value. Keys other than the three
      validated ones may be present; validation ignores them. */
  type Input = map<string, Value>

  /** The three validated fields. */
  datatype Field = Nama | Kelas | Umur

  const Fields: set<Field> := {Nama, Kelas, Umur}

  /** The request key of a field, which is also its key in `messages`. */
  function Key(f: Field): string
  {
    match f
    case Nama => "nama"
    case Kelas => "kelas"
    case Umur => "umur"
  }

  /** `required` for creation; `sometimes|required` for update. */
  datatype Mode = Required | Sometimes

  // ---------------------------------------------------------------------
  // Character classes of the two regular expressions and of PHP's trim
  // ---------------------------------------------------------------------

  datatype CharClass =
    | Roman     // [XIV]
    | Space     // \s : space, tab, line feed, vertical tab, form feed, carriage return
    | Digit     // \d : ASCII digits
    | NameChar  // [a-zA-Z\s]
    | TrimChar  // the characters PHP's trim removes: space, tab, LF, CR, NUL, vertical tab

  predicate IsLetter(c: char)
  {
    ('a' <= c <= 'z') || ('A' <= c <= 'Z')
  }

  predicate IsSpace(c: char)
  {
    c == ' ' || c == '\t' || c == '\n' || c == '\U{B}' || c == '\U{C}' || c == '\r'
  }

  predicate InClass(c: char, k: CharClass)
  {
    match k
    case Roman => c == 'X' || c == 'I' || c == 'V'
    case Space => IsSpace(c)
    case Digit => '0' <= c <= '9'
    case NameChar => IsLetter(c) || IsSpace(c)
    case TrimChar => c == ' ' || c == '\t' || c == '\n' || c == '\r' || c == '\0' || c == '\U{B}'
  }

  predicate AllIn(s: string, k: CharClass)
  {
    forall i :: 0 <= i < |s| ==> InClass(s[i], k)
  }

  /** Length of the longest prefix of `s` whose characters are all in `k`. */
  function Span(s: string, k: CharClass): (n: nat)
    ensures n <= |s|
    ensures AllIn(s[..n], k)
    ensures n < |s| ==> !InClass(s[n], k)
  {
    if s == [] || !InClass(s[0], k) then 0
    else
      var m := Span(s[1..], k);
      assert s[..m + 1] == [s[0]] + s[1..][..m];
      1 + m
  }

  /** `Span` is the only length with the three properties of its contract. */
  lemma SpanExact(s: string, k: CharClass, n: nat)
    requires n <= |s| && AllIn(s[..n], k)
    requires n < |s| ==> !InClass(s[n], k)
    ensures Span(s, k) == n
  {
  }

  // ---------------------------------------------------------------------
  // regex:/^[a-zA-Z\s]+$/
  // ---------------------------------------------------------------------

  predicate NamaPattern(s: string)
  {
    |s| > 0 && AllIn(s, NameChar)
  }

  // ---------------------------------------------------------------------
  // regex:/^[XIV]+\s+(IPA|IPS)\s+\d+$/
  // ---------------------------------------------------------------------

  predicate IsProgram(p: string)
  {
    p == "IPA" || p == "IPS"
  }

  /** The pattern's meaning: `s` splits at i < j < j+3 < k into a run of
      X/I/V, a run of whitespace, IPA or IPS, a run of whitespace and a run of
      digits, every run non-empty. */
  ghost predicate KelasSplit(s: string, i: int, j: int, k: int)
  {
    && 0 < i < j && j + 3 < k < |s|
    && AllIn(s[..i], Roman)
    && AllIn(s[i..j], Space)
    && IsProgram(s[j..j + 3])
    && AllIn(s[j + 3..k], Space)
    && AllIn(s[k..], Digit)
  }

  ghost predicate KelasPattern(s: string)
  {
    exists i, j, k :: KelasSplit(s, i, j, k)
  }

  /** The matcher. The character classes of neighbouring runs are disjoint,
      so each run is the longest one possible and no backtracking is needed. */
  predicate MatchKelas(s: string)
  {
    var i := Span(s, Roman);
    var j := i + Span(s[i..], Space);
    && 0 < i < j && j + 3 <= |s| && IsProgram(s[j..j + 3])
    && var k := j + 3 + Span(s[j + 3..], Space);
    && j + 3 < k < |s| && AllIn(s[k..], Digit)
  }

  /** Every string the matcher accepts has the pattern's shape. */
  lemma MatchKelasSound(s: string)
    requires MatchKelas(s)
    ensures KelasPattern(s)
  {
    var i := Span(s, Roman);
    var j := i + Span(s[i..], Space);
    var k := j + 3 + Span(s[j + 3..], Space);
    assert s[i..][..j - i] == s[i..j];
    assert s[j + 3..][..k - j - 3] == s[j + 3..k];
    assert KelasSplit(s, i, j, k);
  }

  /** Every split the pattern allows is the one the matcher finds: each run
      ends where a character of the next run's class begins. */
  lemma MatchKelasComplete(s: string, i: int, j: int, k: int)
    requires KelasSplit(s, i, j, k)
    ensures MatchKelas(s)
  {
    assert s[i..j][0] == s[i];
    SpanExact(s, Roman, i);
    var t := s[i..];
    assert t[..j - i] == s[i..j];
    assert t[j - i] == s[j] == s[j..j + 3][0];
    SpanExact(t, Space, j - i);
    var u := s[j + 3..];
    assert u[..k - j - 3] == s[j + 3..k];
    assert u[k - j - 3] == s[k] == s[k..][0];
    SpanExact(u, Space, k - j - 3);
  }

  /** The greedy matcher accepts exactly the strings the pattern describes. */
  lemma MatchKelasIsPattern(s: string)
    ensures MatchKelas(s) <==> KelasPattern(s)
  {
    if MatchKelas(s) {
      MatchKelasSound(s);
    }
    if KelasPattern(s) {
      var i, j, k :| KelasSplit(s, i, j, k);
      MatchKelasComplete(s, i, j, k);
    }
  }

  // ---------------------------------------------------------------------
  // The rule lists
  // ---------------------------------------------------------------------

  /** `required` on a present value: not null and not a string that is empty
      once trimmed. */
  predicate Filled(v: Value)
  {
    v != Null && !(v.Str? && AllIn(v.s, TrimChar))
  }

  /** Every rule of the field's list, applied to a value that is present. */
  predicate Satisfies(f: Field, v: Value)
  {
    && Filled(v)
    && match f
       case Nama => v.Str? && NamaPattern(v.s) && |v.s| <= 255
       case Kelas => v.Str? && MatchKelas(v.s) && |v.s| <= 10
       case Umur => v.Int? && 6 <= v.n <= 18
  }

  /** Whether field `f` is reported in `messages`. In `Sometimes` mode an
      absent field is not validated at all; in `Required` mode an absent
      field fails `required`. */
  predicate Fails(input: Input, mode: Mode, f: Field)
  {
    if Key(f) in input then !Satisfies(f, input[Key(f)]) else mode == Required
  }

  /** The validated data: one slot per field, filled when the field was
      supplied (and, having passed its rules, has the field's type). */
  datatype Patch = Patch(nama: Option<string>, kelas: Option<string>, umur: Option<int>)

  predicate Complete(p: Patch)
  {
    p.nama.Some? && p.kelas.Some? && p.umur.Some?
  }

  /** `p` holds exactly the supplied values of the three fields. */
  ghost predicate Carries(p: Patch, input: Input)
  {
    && (p.nama.Some? <==> Key(Nama) in input)
    && (p.nama.Some? ==> input[Key(Nama)] == Str(p.nama.value))
    && (p.kelas.Some? <==> Key(Kelas) in input)
    && (p.kelas.Some? ==> input[Key(Kelas)] == Str(p.kelas.value))
    && (p.umur.Some? <==> Key(Umur) in input)
    && (p.umur.Some? ==> input[Key(Umur)] == Int(p.umur.value))
  }

  /** The outcome of `$request->validate(...)`: the validated data, or the
      set of field names that `$e->errors()` has as keys. */
  datatype Validation = Passed(data: Patch) | Rejected(messages: set<Field>)

  function StrOf(v: Value): Option<string>
  {
    if v.Str? then Some(v.s) else None
  }

  function IntOf(v: Value): Option<int>
  {
    if v.Int? then Some(v.n) else None
  }

  function Slot<T>(input: Input, f: Field, conv: Value -> Option<T>): Option<T>
  {
    if Key(f) in input then conv(input[Key(f)]) else None
  }

  function Validate(input: Input, mode: Mode): (r: Validation)
    ensures r.Rejected? <==> exists f :: f in Fields && Fails(input, mode, f)
    ensures r.Rejected? ==> forall f :: f in r.messages <==> f in Fields && Fails(input, mode, f)
    ensures r.Passed? ==> Carries(r.data, input)
  {
    var failing :=
      (if Fails(input, mode, Nama) then {Nama} else {})
      + (if Fails(input, mode, Kelas) then {Kelas} else {})
      + (if Fails(input, mode, Umur) then {Umur} else {});
    if failing != {} then Rejected(failing)
    else Passed(Patch(Slot(input, Nama, StrOf), Slot(input, Kelas, StrOf), Slot(input, Umur, IntOf)))
  }

  // ---------------------------------------------------------------------
  // Properties of the rules
  // ---------------------------------------------------------------------

  /** Creation validates exactly when all three fields are present and each
      passes its rules; the validated data then holds every field. */
  lemma StoreAcceptsExactly(input: Input)
    ensures Validate(input, Required).Passed? <==>
            forall f :: f in Fields ==> Key(f) in input && Satisfies(f, input[Key(f)])
    ensures Validate(input, Required).Passed? ==> Complete(Validate(input, Required).data)
  {
  }

  /** Under `sometimes`, an absent field is never reported, and a present
      field is reported exactly when the creation rules would report it. */
  lemma SometimesChecksOnlySupplied(input: Input, f: Field)
    ensures Key(f) !in input ==> !Fails(input, Sometimes, f)
    ensures Key(f) in input ==> (Fails(input, Sometimes, f) <==> Fails(input, Required, f))
  {
  }

  /** The data a successful validation yields satisfies the rules of every
      field it holds. */
  lemma ValidatedDataSatisfiesRules(input: Input, mode: Mode)
    requires Validate(input, mode).Passed?
    ensures var p := Validate(input, mode).data;
            && (p.nama.Some? ==> Satisfies(Nama, Str(p.nama.value)))
            && (p.kelas.Some? ==> Satisfies(Kelas, Str(p.kelas.value)))
            && (p.umur.Some? ==> Satisfies(Umur, Int(p.umur.value)))
  {
  }

  /** Keys other than `nama`, `kelas` and `umur` change nothing: not the
      verdict, not the failing fields, not the validated data. */
  lemma OtherKeysIgnored(input: Input, mode: Mode, x: string, v: Value)
    requires forall f :: f in Fields ==> x != Key(f)
    ensures Validate(input[x := v], mode) == Validate(input, mode)
  {
  }

  predicate ProgramAt(s: string, j: int)
  {
    0 <= j && j + 3 <= |s| && IsProgram(s[j..j + 3])
  }

  /** An accepted `kelas` has at most ten characters, begins with X, I or V,
      holds IPA or IPS strictly inside it and ends with a digit; its Roman
      numeral is at most four letters long. */
  lemma AcceptedKelasShape(v: Value)
    requires Satisfies(Kelas, v)
    ensures v.Str? && 0 < |v.s| <= 10
    ensures KelasPattern(v.s)
    ensures InClass(v.s[0], Roman) && InClass(v.s[|v.s| - 1], Digit)
    ensures exists j :: 0 < j && j + 3 < |v.s| && ProgramAt(v.s, j)
    ensures Span(v.s, Roman) <= 4
  {
    var s := v.s;
    MatchKelasIsPattern(s);
    var i := Span(s, Roman);
    var j := i + Span(s[i..], Space);
    var k := j + 3 + Span(s[j + 3..], Space);
    assert s[..i][0] == s[0];
    assert s[k..][|s| - 1 - k] == s[|s| - 1];
    assert ProgramAt(s, j);
  }

  /** For `kelas`, `required` and `string` add nothing to the pattern and
      the length bound: a matching string starts with X, I or V, which trim
      keeps. */
  lemma KelasRuleIsPatternAndLength(s: string)
    ensures Satisfies(Kelas, Str(s)) <==> MatchKelas(s) && |s| <= 10
  {
  }

  /** An accepted `umur` is an integer from 6 to 18, and every such integer
      is accepted. */
  lemma AcceptedUmurRange(v: Value)
    ensures Satisfies(Umur, v) <==> v.Int? && 6 <= v.n <= 18
  {
  }

  /** An accepted `nama` is a non-empty string of letters and whitespace,
      at most 255 characters long, with at least one character that trim
      does not remove. */
  lemma AcceptedNamaShape(v: Value)
    requires Satisfies(Nama, v)
    ensures v.Str? && 0 < |v.s| <= 255 && AllIn(v.s, NameChar)
    ensures exists i :: 0 <= i < |v.s| && !InClass(v.s[i], TrimChar)
  {
  }
}
