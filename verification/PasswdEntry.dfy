/** The validated `/etc/passwd` and `/etc/group` lines of `passwd-append`. */
module PasswdEntry {
  import opened Bytes
  import opened Splitting
  import Strings

  const COLON: Byte := 0x3A
  const NEWLINE: Byte := 0x0A
  const CARRIAGE_RETURN: Byte := 0x0D
  const NUL: Byte := 0
  const DASH: Byte := 0x2D
  const SLASH: Byte := 0x2F
  const PASSWORD_PLACEHOLDER: Text := [0x78]
  const MAX_NAME_LEN := 32

  datatype Reason =
    | Separator | Newline | Nul | Empty | TooLong | BadCharacter | LeadingDash | NotAbsolute | RootUid

  datatype Field = Name | Uid | Gecos | Home | Shell

  datatype InvalidField = InvalidField(field: Field, reason: Reason)

  datatype Entry =
    | Passwd(name: Text, uid: U32, gid: U32, gecos: Text, home: Text, shell: Text)
    | Group(name: Text, uid: U32)

  // ----- the rules, stated once

  predicate Clean(value: Text) {
    forall i | 0 <= i < |value| :: value[i] !in {COLON, NEWLINE, CARRIAGE_RETURN, NUL}
  }

  predicate IsNameByte(b: Byte) {
    || 0x30 <= b <= 0x39
    || 0x41 <= b <= 0x5A
    || 0x61 <= b <= 0x7A
    || b in {0x2E, 0x5F, DASH}
  }

  predicate GoodName(name: Text) {
    && 1 <= |name| <= MAX_NAME_LEN
    && name[0] != DASH
    && forall i | 0 <= i < |name| :: IsNameByte(name[i])
  }

  predicate GoodPath(path: Text) {
    Clean(path) && path != [] && path[0] == SLASH
  }

  /** What every constructed entry satisfies. */
  predicate Accepted(e: Entry) {
    && GoodName(e.name)
    && e.uid != 0
    && (e.Passwd? ==> Clean(e.gecos) && GoodPath(e.home) && (e.shell == [] || GoodPath(e.shell)))
  }

  // ----- the validators, in the order the source applies them

  /** Why one byte is refused; `Empty` stands for "it is not". */
  function ControlReason(b: Byte): Reason {
    if b == COLON then Separator
    else if b == NEWLINE || b == CARRIAGE_RETURN then Newline
    else if b == NUL then Nul
    else Empty
  }

  function RejectControl(field: Field, value: Text): (r: Option<InvalidField>)
    ensures r.None? <==> Clean(value)
    ensures r.Some? ==> r.value.field == field
  {
    if value == [] then None
    else if ControlReason(value[0]) != Empty then Some(InvalidField(field, ControlReason(value[0])))
    else
      assert value == [value[0]] + value[1..];
      RejectControl(field, value[1..])
  }

  /** The four bytes no value may hold. */
  lemma CleanMeans(value: Text)
    ensures Clean(value) <==> 0x3A !in value && 0x0A !in value && 0x0D !in value && 0 !in value
  {
  }

  /** The reason given is that of the first offending byte. */
  lemma {:induction false} RejectsFirstControl(field: Field, value: Text) returns (i: nat)
    requires !Clean(value)
    ensures i < |value| && (forall j | 0 <= j < i :: ControlReason(value[j]) == Empty)
    ensures ControlReason(value[i]) != Empty
    ensures RejectControl(field, value) == Some(InvalidField(field, ControlReason(value[i])))
    ensures value[i] == 0x3A ==> ControlReason(value[i]) == Separator
    ensures value[i] in {0x0A, 0x0D} ==> ControlReason(value[i]) == Newline
    ensures value[i] == 0 ==> ControlReason(value[i]) == Nul
  {
    if ControlReason(value[0]) != Empty {
      i := 0;
    } else {
      i := RejectsFirstControl(field, value[1..]);
      i := i + 1;
    }
  }

  /** The bytes of a name are letters, digits, the dot, the underscore and the dash. */
  lemma NameAlphabet(b: Byte)
    ensures IsNameByte(b) <==> b as char in Strings.LOWERCASE + Strings.UPPERCASE + Strings.DIGITS + {'.', '_', '-'}
  {
    Strings.Alphabets(b as char);
    var c := b as char;
    assert c as int == b;
  }

  function ValidateName(name: Text): (r: Option<InvalidField>)
    ensures r.None? <==> GoodName(name)
    ensures r == Some(InvalidField(Name, Empty)) <==> name == []
    ensures r == Some(InvalidField(Name, TooLong)) <==> |name| > 32
    ensures r == Some(InvalidField(Name, LeadingDash)) <==> 1 <= |name| <= 32 && name[0] == 0x2D
    ensures r.Some? ==> r.value.field == Name && r.value.reason in {Empty, TooLong, LeadingDash, BadCharacter}
  {
    if name == [] then Some(InvalidField(Name, Empty))
    else if |name| > MAX_NAME_LEN then Some(InvalidField(Name, TooLong))
    else if name[0] == DASH then Some(InvalidField(Name, LeadingDash))
    else if exists i | 0 <= i < |name| :: !IsNameByte(name[i]) then Some(InvalidField(Name, BadCharacter))
    else None
  }

  function ValidateAbsolute(field: Field, value: Text): (r: Option<InvalidField>)
    ensures r.None? <==> GoodPath(value)
    ensures r.Some? ==> r.value.field == field
    ensures !Clean(value) ==> r == RejectControl(field, value)
    ensures Clean(value) && !GoodPath(value) ==>
              r == Some(InvalidField(field, if value == [] then Empty else NotAbsolute))
  {
    var control := RejectControl(field, value);
    if control.Some? then control
    else if value == [] then Some(InvalidField(field, Empty))
    else if value[0] != SLASH then Some(InvalidField(field, NotAbsolute))
    else None
  }

  /** The first field, in the order of the line, that breaks a rule; the shell when no earlier one does. */
  function FirstBroken(name: Text, uid: U32, gecos: Text, home: Text): Field {
    if !GoodName(name) then Name
    else if uid == 0 then Uid
    else if !Clean(gecos) then Gecos
    else if !GoodPath(home) then Home
    else Shell
  }

  /** What the rules of one field say about it. */
  function FaultIn(field: Field, name: Text, uid: U32, gecos: Text, home: Text, shell: Text): Option<InvalidField> {
    match field
    case Name => ValidateName(name)
    case Uid => if uid == 0 then Some(InvalidField(Uid, RootUid)) else None
    case Gecos => RejectControl(Gecos, gecos)
    case Home => ValidateAbsolute(Home, home)
    case Shell => if shell == [] then None else ValidateAbsolute(Shell, shell)
  }

  /** The constructor: an entry exists exactly when it obeys every rule. */
  function NewPasswd(name: Text, uid: U32, gid: U32, gecos: Text, home: Text, shell: Text)
    : (r: Result<Entry, InvalidField>)
    ensures r.Ok? <==> Accepted(Passwd(name, uid, gid, gecos, home, shell))
    ensures r.Ok? <==> ValidateName(name).None? && uid != 0 && RejectControl(Gecos, gecos).None?
                       && ValidateAbsolute(Home, home).None? && (shell == [] || ValidateAbsolute(Shell, shell).None?)
    ensures r.Ok? ==> uid != 0 && 1 <= |name| <= 32
    ensures r.Ok? ==> home != [] && home[0] == 0x2F && (shell == [] || shell[0] == 0x2F)
    ensures r.Ok? ==> r.value == Passwd(name, uid, gid, gecos, home, shell)
    ensures r.Err? ==> r.error.field == FirstBroken(name, uid, gecos, home)
    ensures r.Err? ==> Some(r.error) == FaultIn(r.error.field, name, uid, gecos, home, shell)
  {
    var badName := ValidateName(name);
    if badName.Some? then Err(badName.value)
    else if uid == 0 then Err(InvalidField(Uid, RootUid))
    else
      var badGecos := RejectControl(Gecos, gecos);
      if badGecos.Some? then Err(badGecos.value)
      else
        var badHome := ValidateAbsolute(Home, home);
        if badHome.Some? then Err(badHome.value)
        else
          var badShell := if shell == [] then None else ValidateAbsolute(Shell, shell);
          if badShell.Some? then Err(badShell.value)
          else Ok(Passwd(name, uid, gid, gecos, home, shell))
  }

  function NewGroup(name: Text, uid: U32): (r: Result<Entry, InvalidField>)
    ensures r.Ok? <==> Accepted(Group(name, uid))
    ensures r.Ok? <==> ValidateName(name).None? && uid != 0
    ensures r.Ok? ==> r.value == Group(name, uid)
    ensures r.Err? && !GoodName(name) ==> Some(r.error) == ValidateName(name)
    ensures r.Err? && GoodName(name) ==> r.error == InvalidField(Uid, RootUid)
  {
    var badName := ValidateName(name);
    if badName.Some? then Err(badName.value)
    else if uid == 0 then Err(InvalidField(Uid, RootUid))
    else Ok(Group(name, uid))
  }

  // ----- decimal numbers

  function Decimal(n: nat): (s: Text)
    ensures |s| >= 1
    ensures AllDigits(s)
  {
    if n < 10 then [0x30 + n] else Decimal(n / 10) + [0x30 + n % 10]
  }

  predicate AllDigits(s: Text) {
    forall i | 0 <= i < |s| :: 0x30 <= s[i] <= 0x39
  }

  function DigitsValue(s: Text): (n: nat)
    requires AllDigits(s)
  {
    if s == [] then 0 else 10 * DigitsValue(s[..|s| - 1]) + (s[|s| - 1] - 0x30)
  }

  /** Rust's `u32::from_str`: an optional `+`, at least one digit, leading zeros welcome, no overflow. */
  function Number(field: Text): (r: Option<U32>)
  {
    var digits := if field != [] && field[0] == 0x2B then field[1..] else field;
    if digits == [] || !AllDigits(digits) || DigitsValue(digits) >= 0x1_0000_0000 then None
    else Some(DigitsValue(digits))
  }

  lemma {:induction false} DigitsValueOfDecimal(n: nat)
    ensures DigitsValue(Decimal(n)) == n
  {
    if n >= 10 {
      DigitsValueOfDecimal(n / 10);
      assert Decimal(n)[..|Decimal(n)| - 1] == Decimal(n / 10);
    }
  }

  /** What `Display` prints, `number` reads back. */
  lemma NumberOfDecimal(n: U32)
    ensures Number(Decimal(n)) == Some(n)
  {
    DigitsValueOfDecimal(n);
    assert AllDigits(Decimal(n)) && |Decimal(n)| >= 1;
    assert Decimal(n)[0] != 0x2B;
  }

  function Zeros(z: nat): (s: Text)
    ensures |s| == z && AllDigits(s)
  {
    seq(z, _ => 0x30)
  }

  lemma {:induction false} LeadingZeros(z: nat, s: Text)
    requires AllDigits(s)
    ensures AllDigits(Zeros(z) + s) && DigitsValue(Zeros(z) + s) == DigitsValue(s)
  {
    var all := Zeros(z) + s;
    if s != [] {
      assert all[..|all| - 1] == Zeros(z) + s[..|s| - 1];
      LeadingZeros(z, s[..|s| - 1]);
    } else if z > 0 {
      assert all == Zeros(z - 1) + [0x30];
      assert all[..|all| - 1] == Zeros(z - 1) + [];
      LeadingZeros(z - 1, []);
    }
  }

  lemma ZerosSnoc(z: nat)
    ensures Zeros(z) + Decimal(0) == Zeros(z + 1)
  {
  }

  lemma DecimalSnoc(v: nat, last: Byte)
    requires v > 0 && 0x30 <= last <= 0x39
    ensures Decimal(10 * v + (last - 0x30)) == Decimal(v) + [last]
  {
  }

  /** Digits are zeros and then the plain decimal of their value. */
  lemma {:induction false} DigitsSpell(s: Text) returns (z: nat)
    requires s != [] && AllDigits(s)
    ensures s == Zeros(z) + Decimal(DigitsValue(s))
  {
    var front, last := s[..|s| - 1], s[|s| - 1];
    assert s == front + [last];
    if front == [] {
      assert DigitsValue(front) == 0;
      return 0;
    }
    z := DigitsSpell(front);
    z := SpellsOneMore(front, last, z, DigitsValue(front));
  }

  lemma SpellsOneMore(front: Text, last: Byte, z: nat, v: nat) returns (z': nat)
    requires 0x30 <= last <= 0x39 && front == Zeros(z) + Decimal(v)
    ensures front + [last] == Zeros(z') + Decimal(10 * v + (last - 0x30))
  {
    if v == 0 {
      ZerosSnoc(z);
      z' := z + 1;
    } else {
      DecimalSnoc(v, last);
      z' := z;
    }
  }

  /** `field` is a number's decimal digits, with any leading zeros and possibly a plus sign. */
  ghost predicate Spells(field: Text, n: U32) {
    exists z: nat :: field == Zeros(z) + Decimal(n) || field == [0x2B] + (Zeros(z) + Decimal(n))
  }

  /** `number` reads exactly those spellings: `42`, `0042`, `+42` all name the same user. */
  lemma NumberReadsSpellings(field: Text, n: U32)
    ensures Number(field) == Some(n) <==> Spells(field, n)
  {
    if Number(field) == Some(n) {
      ReadNumberIsSpelled(field, n);
    }
    if Spells(field, n) {
      var z: nat :| field == Zeros(z) + Decimal(n) || field == [0x2B] + (Zeros(z) + Decimal(n));
      SpelledNumberIsRead(field, Zeros(z) + Decimal(n), n, z);
    }
  }

  lemma ReadNumberIsSpelled(field: Text, n: U32)
    requires Number(field) == Some(n)
    ensures Spells(field, n)
  {
    if field[0] == 0x2B {
      var z := DigitsSpell(field[1..]);
      assert field == [0x2B] + (Zeros(z) + Decimal(n));
    } else {
      var z := DigitsSpell(field);
      assert field == Zeros(z) + Decimal(n);
    }
  }

  lemma SpelledNumberIsRead(field: Text, digits: Text, n: U32, z: nat)
    requires digits == Zeros(z) + Decimal(n) && (field == digits || field == [0x2B] + digits)
    ensures Number(field) == Some(n)
  {
    DigitsValueOfDecimal(n);
    LeadingZeros(z, Decimal(n));
    assert digits[0] != 0x2B;
    if field != digits {
      assert field[1..] == digits;
    }
  }

  /** The bytes of `+042` are a number to `number`, and not the plain decimal of it. */
  lemma PlusAndZeros()
    ensures Number([0x2B, 0x30, 0x34, 0x32]) == Some(42) && Decimal(42) == [0x34, 0x32]
  {
    assert [0x2B, 0x30, 0x34, 0x32] == [0x2B] + (Zeros(1) + Decimal(42));
    NumberReadsSpellings([0x2B, 0x30, 0x34, 0x32], 42);
  }

  // ----- printing

  /** The seven passwd fields, or the four group fields, of an entry. */
  function PrintedFields(e: Entry): (fields: seq<Text>)
  {
    match e
    case Passwd(name, uid, gid, gecos, home, shell) =>
      [name, PASSWORD_PLACEHOLDER, Decimal(uid), Decimal(gid), gecos, home, shell]
    case Group(name, uid) =>
      [name, PASSWORD_PLACEHOLDER, Decimal(uid), []]
  }

  /** `Display`: the format strings of the two entry types. */
  function Line(e: Entry): (line: Text)
  {
    match e
    case Passwd(name, uid, gid, gecos, home, shell) =>
      name + [COLON] + PASSWORD_PLACEHOLDER + [COLON] + Decimal(uid) + [COLON] + Decimal(gid)
      + [COLON] + gecos + [COLON] + home + [COLON] + shell
    case Group(name, uid) =>
      name + [COLON] + PASSWORD_PLACEHOLDER + [COLON] + Decimal(uid) + [COLON]
  }

  lemma JoinCons(head: Text, tail: seq<Text>, sep: Byte, before: Text)
    requires tail != []
    ensures before + Join([head] + tail, sep) == before + head + [sep] + Join(tail, sep)
  {
  }

  lemma LineIsJoin(e: Entry)
    ensures Line(e) == Join(PrintedFields(e), COLON)
  {
    var f := PrintedFields(e);
    var before: Text := [];
    var i := 0;
    assert f == f[0..];
    while i < |f| - 1
      invariant 0 <= i < |f|
      invariant before == PrefixOf(f, i)
      invariant Join(f, COLON) == before + Join(f[i..], COLON)
    {
      JoinCons(f[i], f[i + 1..], COLON, before);
      assert f[i..] == [f[i]] + f[i + 1..];
      before := before + f[i] + [COLON];
      i := i + 1;
    }
    assert f[|f| - 1..] == [f[|f| - 1]];
    assert PrefixOf(f, 1) == f[0] + [COLON];
    assert PrefixOf(f, 2) == f[0] + [COLON] + f[1] + [COLON];
    assert PrefixOf(f, 3) == f[0] + [COLON] + f[1] + [COLON] + f[2] + [COLON];
    if e.Passwd? {
      assert PrefixOf(f, 4) == PrefixOf(f, 3) + f[3] + [COLON];
      assert PrefixOf(f, 5) == PrefixOf(f, 4) + f[4] + [COLON];
    }
  }

  /** The first `i` fields, each followed by its colon. */
  ghost function PrefixOf(f: seq<Text>, i: nat): Text
    requires i <= |f|
  {
    if i == 0 then [] else PrefixOf(f, i - 1) + f[i - 1] + [COLON]
  }

  /** No field can forge another field or another line. */
  lemma PrintedFieldsClean(e: Entry)
    requires Accepted(e)
    ensures forall i | 0 <= i < |PrintedFields(e)| :: Clean(PrintedFields(e)[i])
  {
  }

  lemma {:induction false} JoinAvoids(parts: seq<Text>, sep: Byte, b: Byte)
    requires b != sep
    requires forall i | 0 <= i < |parts| :: b !in parts[i]
    ensures b !in Join(parts, sep)
  {
    if |parts| > 1 {
      JoinAvoids(parts[1..], sep, b);
    }
  }

  /** The printed line is one line that splits back into exactly the printed fields. */
  lemma LineSplitsBack(e: Entry)
    requires Accepted(e)
    ensures Split(Line(e), {COLON}) == PrintedFields(e)
    ensures e.Passwd? ==>
              Split(Line(e), {0x3A}) == [e.name, [0x78], Decimal(e.uid), Decimal(e.gid), e.gecos, e.home, e.shell]
    ensures e.Group? ==> Split(Line(e), {0x3A}) == [e.name, [0x78], Decimal(e.uid), []]
    ensures NEWLINE !in Line(e) && CARRIAGE_RETURN !in Line(e)
    ensures Line(e) != [] && Line(e)[0] == e.name[0]
  {
    var f := PrintedFields(e);
    PrintedFieldsClean(e);
    LineIsJoin(e);
    SplitOfJoin(f, COLON);
    JoinAvoids(f, COLON, NEWLINE);
    JoinAvoids(f, COLON, CARRIAGE_RETURN);
  }
}
