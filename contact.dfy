/** The `Contact` record: six editable properties plus a numeric id, with
    id-based equality, a hash code that truncates the id to 32 bits, and the
    text rendering used for logging. */
module Contacts {

  datatype Option<T> = None | Some(value: T)

  const TWO_32: int := 0x1_0000_0000
  const TWO_31: int := 0x8000_0000

  /** Java `long`. */
  newtype int64 = x: int | -0x8000_0000_0000_0000 <= x < 0x8000_0000_0000_0000

  /** A `java.util.Date`; only its identity as a value matters here. */
  datatype Date = Date(millis: int)

  /** The properties the editor and the row display bind (every property
      except the id). `None` is Java's `null`. */
  datatype Properties = Properties(
    fullname: Option<string>,
    nickname: Option<string>,
    phonenumber: Option<string>,
    email: Option<string>,
    birthday: Option<Date>,
    notes: Option<string>)

  /** `(int) x` for a Java `long`: keep the low 32 bits, read as signed. */
  function ToInt32(x: int): (r: int)
    ensures -TWO_31 <= r < TWO_31
    ensures (x - r) % TWO_32 == 0
    ensures -TWO_31 <= x < TWO_31 ==> r == x
  {
    var m := x % TWO_32;
    if m >= TWO_31 then m - TWO_32 else m
  }

  function DigitChar(d: nat): (c: char)
    requires d < 10
    ensures '0' <= c <= '9' && c as int - '0' as int == d
  {
    ('0' as int + d) as char
  }

  predicate IsDigit(c: char)
  {
    '0' <= c <= '9'
  }

  /** Decimal digits of `n` without leading zeros. */
  function Digits(n: nat): (r: string)
    ensures |r| > 0 && IsDigit(r[0])
  {
    if n < 10 then [DigitChar(n)] else Digits(n / 10) + [DigitChar(n % 10)]
  }

  /** `Long.toString`: a minus sign for negative values, then the digits. */
  function LongText(n: int): (r: string)
    ensures |r| > 0
    ensures r[0] == '-' <==> n < 0
  {
    if n < 0 then "-" + Digits(-n) else Digits(n)
  }

  /** Value of a string of decimal digits. */
  function ParseDigits(s: string): nat
  {
    if s == [] then 0
    else 10 * ParseDigits(s[..|s| - 1]) + (if IsDigit(s[|s| - 1]) then s[|s| - 1] as int - '0' as int else 0)
  }

  /** Value of an optionally signed decimal numeral. */
  function ParseLong(s: string): int
  {
    if |s| > 0 && s[0] == '-' then -(ParseDigits(s[1..]) as int) else ParseDigits(s)
  }

  lemma {:induction false} DigitsAreDigits(n: nat)
    ensures |Digits(n)| > 0
    ensures forall c :: c in Digits(n) ==> IsDigit(c)
  {
    if n >= 10 {
      DigitsAreDigits(n / 10);
    }
  }

  lemma {:induction false} DigitsRoundTrip(n: nat)
    ensures ParseDigits(Digits(n)) == n
  {
    if n >= 10 {
      DigitsRoundTrip(n / 10);
      var s := Digits(n);
      assert s[..|s| - 1] == Digits(n / 10);
      assert s[|s| - 1] == DigitChar(n % 10);
    }
  }

  /** The id's text reads back as the id; it starts with a minus sign
      exactly for negative ids and holds no comma. */
  lemma LongTextRoundTrip(n: int)
    ensures |LongText(n)| > 0
    ensures LongText(n)[0] == '-' <==> n < 0
    ensures ',' !in LongText(n)
    ensures ParseLong(LongText(n)) == n
  {
    if n < 0 {
      DigitsAreDigits(-n);
      DigitsRoundTrip(-n);
      assert LongText(n)[1..] == Digits(-n);
    } else {
      DigitsAreDigits(n);
      DigitsRoundTrip(n);
      assert Digits(n)[0] in Digits(n);
    }
  }

  /** `String.valueOf` as `StringBuilder.append` applies it: null prints as "null". */
  function Show(s: Option<string>): (r: string)
    ensures s.None? ==> r == "null"
    ensures s.Some? ==> r == s.value
  {
    match s
    case None => "null"
    case Some(t) => t
  }

  /** The notes excerpt as written: `substring(0, 20)` throws (None) for
      notes shorter than 20 characters. */
  function NotesExcerptAsWritten(notes: string): (r: Option<string>)
    ensures r.Some? <==> |notes| >= 20
    ensures r.Some? ==> |r.value| >= 20 && r.value[..20] == notes[..20]
  {
    if |notes| < 20 then None
    else Some(notes[..20] + (if |notes| > 20 then "..." else ""))
  }

  /** The notes excerpt as evidently intended: at most the first 20
      characters, followed by "..." exactly when something was cut off. */
  function NotesExcerpt(notes: string): (r: string)
    ensures |notes| <= 20 ==> r == notes
    ensures |notes| > 20 ==> |r| == 23 && r[..20] == notes[..20] && r[20..] == "..."
  {
    if |notes| <= 20 then notes else notes[..20] + "..."
  }

  /** Short notes make the excerpt as written fail where the intended one
      returns the notes unchanged. */
  lemma ShortNotesCounterexample()
    ensures NotesExcerptAsWritten("call me") == None
    ensures NotesExcerpt("call me") == "call me"
  {
  }

  /** Wherever the excerpt as written succeeds it agrees with the intended one. */
  lemma NotesExcerptAgrees(notes: string)
    requires |notes| >= 20
    ensures NotesExcerptAsWritten(notes) == Some(NotesExcerpt(notes))
  {
    if |notes| == 20 {
      assert notes[..20] + "" == notes;
    }
  }

  const PREFIX: string := "[Contact: id="

  /** The id field read back out of a rendering: the text between the
      prefix and the next comma. */
  function ParseIdField(s: string): Option<int>
  {
    if |s| < |PREFIX| || s[..|PREFIX|] != PREFIX then None
    else
      var rest := s[|PREFIX|..];
      var k := UpToComma(rest);
      Some(ParseLong(rest[..k]))
  }

  /** Length of the longest comma-free prefix. */
  function UpToComma(s: string): (k: nat)
    ensures k <= |s|
    ensures forall j :: 0 <= j < k ==> s[j] != ','
    ensures k < |s| ==> s[k] == ','
  {
    if s == [] || s[0] == ',' then 0 else 1 + UpToComma(s[1..])
  }

  lemma {:induction false} UpToCommaOf(a: string, b: string)
    requires ',' !in a
    requires |b| > 0 && b[0] == ','
    ensures UpToComma(a + b) == |a|
  {
    if a != [] {
      assert (a + b)[1..] == a[1..] + b;
      UpToCommaOf(a[1..], b);
    }
  }

  /** A rendering that starts with the prefix, then a comma-free id text,
      then a comma reads back as that id text's value. */
  lemma IdFieldReadsBack(idText: string, tail: string)
    requires ',' !in idText && |tail| > 0 && tail[0] == ','
    ensures ParseIdField(PREFIX + idText + tail) == Some(ParseLong(idText))
  {
    var s := PREFIX + idText + tail;
    assert s[..|PREFIX|] == PREFIX;
    assert s[|PREFIX|..] == idText + tail;
    UpToCommaOf(idText, tail);
    assert (idText + tail)[..|idText|] == idText;
  }

  class Contact {
    var id: int64
    var fullname: Option<string>
    var nickname: Option<string>
    var phonenumber: Option<string>
    var email: Option<string>
    var birthday: Option<Date>
    var notes: Option<string>

    /** A new, unsaved contact: id 0 and every property null. */
    constructor ()
      ensures id == 0
      ensures Fields() == Properties(None, None, None, None, None, None)
    {
      id := 0;
      fullname, nickname, phonenumber, email := None, None, None, None;
      birthday, notes := None, None;
    }

    /** The bound properties as one value. */
    function Fields(): Properties
      reads this
    {
      Properties(fullname, nickname, phonenumber, email, birthday, notes)
    }

    /** Overwrite all bound properties at once; the id is left alone. */
    method SetFields(f: Properties)
      modifies this
      ensures Fields() == f && id == old(id)
    {
      fullname, nickname, phonenumber, email := f.fullname, f.nickname, f.phonenumber, f.email;
      birthday, notes := f.birthday, f.notes;
    }

    /** Each getter reads its own property of the bound record. */
    function GetBirthday(): (v: Option<Date>)
      reads this
      ensures v == Fields().birthday
    {
      birthday
    }

    function GetFullname(): (v: Option<string>)
      reads this
      ensures v == Fields().fullname
    {
      fullname
    }

    function GetNickname(): (v: Option<string>)
      reads this
      ensures v == Fields().nickname
    {
      nickname
    }

    function GetPhonenumber(): (v: Option<string>)
      reads this
      ensures v == Fields().phonenumber
    {
      phonenumber
    }

    function GetEmail(): (v: Option<string>)
      reads this
      ensures v == Fields().email
    {
      email
    }

    function GetNotes(): (v: Option<string>)
      reads this
      ensures v == Fields().notes
    {
      notes
    }

    /** `getId`: the value `hashCode` truncates. */
    function GetId(): (v: int64)
      reads this
      ensures (v as int - HashCode()) % TWO_32 == 0
    {
      id
    }

    method SetBirthday(v: Option<Date>)
      modifies this
      ensures GetBirthday() == v
      ensures Fields() == old(Fields()).(birthday := v) && id == old(id)
    {
      birthday := v;
    }

    method SetFullname(v: Option<string>)
      modifies this
      ensures GetFullname() == v
      ensures Fields() == old(Fields()).(fullname := v) && id == old(id)
    {
      fullname := v;
    }

    method SetNickname(v: Option<string>)
      modifies this
      ensures GetNickname() == v
      ensures Fields() == old(Fields()).(nickname := v) && id == old(id)
    {
      nickname := v;
    }

    method SetPhonenumber(v: Option<string>)
      modifies this
      ensures GetPhonenumber() == v
      ensures Fields() == old(Fields()).(phonenumber := v) && id == old(id)
    {
      phonenumber := v;
    }

    method SetEmail(v: Option<string>)
      modifies this
      ensures GetEmail() == v
      ensures Fields() == old(Fields()).(email := v) && id == old(id)
    {
      email := v;
    }

    method SetNotes(v: Option<string>)
      modifies this
      ensures GetNotes() == v
      ensures Fields() == old(Fields()).(notes := v) && id == old(id)
    {
      notes := v;
    }

    method SetId(v: int64)
      modifies this
      ensures GetId() == v
      ensures Fields() == old(Fields())
    {
      id := v;
    }

    /** `equals(Object)`: the other object is a contact (not null) with a
        non-zero id equal to this one's. A non-Contact argument behaves
        like null. */
    predicate Equals(obj: Contact?): (b: bool)
      reads this, obj
      ensures b ==> obj != null && obj.id == id
      ensures id == 0 ==> !b
    {
      obj != null && obj.id != 0 && obj.id == id
    }

    /** `hashCode()`: the id cast to `int`. */
    function HashCode(): (h: int)
      reads this
      ensures -TWO_31 <= h < TWO_31
      ensures (id as int - h) % TWO_32 == 0
    {
      ToInt32(id as int)
    }

    /** `toString()`. The birthday goes through a date formatter that is not
        part of this model (`isoFormat`) and is cut to its first 10
        characters. None stands for the exceptions: a null birthday or notes,
        or a formatted date shorter than 10 characters. */
    function ToString(isoFormat: Date -> string): (r: Option<string>)
      reads this
      ensures r.Some? <==> birthday.Some? && notes.Some? && |isoFormat(birthday.value)| >= 10
      ensures r.Some? ==> ParseIdField(r.value) == Some(id as int)
    {
      if birthday.None? || notes.None? then None
      else
        var iso := isoFormat(birthday.value);
        if |iso| < 10 then None
        else
          var idText := LongText(id as int);
          var tail := ", nickname=" + Show(nickname) + ", fullname=" + Show(fullname)
                      + ", phonenumber=" + Show(phonenumber) + ", email=" + Show(email)
                      + ", birthday=" + iso[..10] + ", notes=\"" + NotesExcerpt(notes.value);
          LongTextRoundTrip(id as int);
          IdFieldReadsBack(idText, tail);
          Some(PREFIX + idText + tail)
    }
  }

  /** A contact with id 0 equals nothing, not even itself, and nothing
      equals it. */
  lemma UnsavedEqualsNothing(c: Contact, o: Contact?)
    requires c.id == 0
    ensures !c.Equals(c)
    ensures !c.Equals(o)
    ensures o != null ==> !o.Equals(c)
  {
  }

  /** A saved contact equals itself. */
  lemma SavedEqualsItself(c: Contact)
    requires c.id != 0
    ensures c.Equals(c)
  {
  }

  lemma EqualsSymmetric(a: Contact, b: Contact)
    ensures a.Equals(b) <==> b.Equals(a)
  {
  }

  lemma EqualsTransitive(a: Contact, b: Contact, c: Contact)
    requires a.Equals(b) && b.Equals(c)
    ensures a.Equals(c)
  {
  }

  /** Equal contacts have equal hash codes. */
  lemma EqualsHashConsistent(a: Contact, b: Contact)
    requires a.Equals(b)
    ensures a.HashCode() == b.HashCode()
  {
  }
}
