/**
  The validation-error normaliser of `lib/error-utils.ts`: it turns whatever
  the REST API sent back as an error (nothing, a plain message, a
  `{detail: ...}` object or a field-to-messages map) into one display
  string, translating known English messages and field names through two
  constant tables.
*/
module ErrorUtils {
  import opened Wrappers
  import opened Strings

  // ---------------------------------------------------------------------------
  // The two constant tables, in their declaration order
  // ---------------------------------------------------------------------------

  /** An ordered lookup table: the entries of a constant object literal, in source order. */
  type Table = seq<(string, string)>

  /** `fieldNames`: form field name to its Uzbek label. */
  const FieldNames: Table := [
    ("name", "Nomi"),
    ("amount", "Summa"),
    ("description", "Tavsif"),
    ("building", "Bino"),
    ("category", "Kategoriya"),
    ("username", "Foydalanuvchi nomi"),
    ("password", "Parol"),
    ("password_confirm", "Parolni tasdiqlash"),
    ("email", "Email"),
    ("first_name", "Ism"),
    ("last_name", "Familiya"),
    ("role", "Rol"),
    ("budget", "Byudjet"),
    ("start_date", "Boshlanish sanasi"),
    ("end_date", "Tugash sanasi"),
    ("status", "Holati"),
    ("date", "Sana"),
    ("detail", "Xatolik")
  ]

  /** `errorMessages`: English server message (or a prefix of one) to its Uzbek translation. */
  const ErrorMessages: Table := [
    ("This field may not be blank.", "Majburiy maydon, to'ldiring."),
    ("Enter a valid number.", "To'g'ri raqam kiriting."),
    ("A valid number is required.", "Raqam bo'lishi shart."),
    ("Date has wrong format. Use one of these formats instead: YYYY-MM-DD.", "Sana formati noto'g'ri (YYYY-MM-DD)."),
    ("A user with that username already exists.", "Bunday foydalanuvchi allaqachon mavjud."),
    ("Ensure this field has no more than", "Belgilar soni juda ko'p."),
    ("Invalid email address.", "Email noto'g'ri kiritildi."),
    ("Not found.", "Ma'lumot topilmadi."),
    ("Object with this name already exists.", "Bunday nomli ma'lumot mavjud.")
  ]

  /**
    The two tables the normaliser reads. The dashboard always uses
    `AppTables`; the normaliser and its properties are stated for any pair of
    tables, and the facts that hold of the constant ones are proved below.
  */
  datatype Tables = Tables(fieldNames: Table, errorMessages: Table)

  const AppTables: Tables := Tables(FieldNames, ErrorMessages)

  /** Result for a falsy payload. */
  const UnknownError: string := "Noma'lum xatolik yuz berdi"

  /** Result for a non-string `detail` and for a field map that yields no text. */
  const GenericError: string := "Xatolik yuz berdi"

  /** The key whose messages are shown without a field label. */
  const NonFieldErrors: string := "non_field_errors"

  // ---------------------------------------------------------------------------
  // Payloads
  // ---------------------------------------------------------------------------

  /**
    One message as the API sent it: a string, or any other JSON value, which
    the source turns into text with `JSON.stringify`; `Json` carries that text.
  */
  datatype Message = Text(s: string) | Json(encoded: string)

  /** The value under one key of the payload: a single message or an array of them. */
  datatype FieldValue = Single(m: Message) | List(ms: seq<Message>)

  type Entry = (string, FieldValue)

  /** An object has each key once. */
  predicate DistinctKeys(es: seq<Entry>) {
    forall i, j :: 0 <= i < j < |es| ==> es[i].0 != es[j].0
  }

  /** The own enumerable entries of an object, in `Object.entries` order. */
  type Fields = es: seq<Entry> | DistinctKeys(es)

  /**
    The error payload handed to `getErrorMessage`:
    - `Falsy`: `null`, `undefined`, `false`, `0`;
    - `Str(s)`: a string (the empty string is falsy too);
    - `Obj(fields)`: any object; a truthy primitive that is not a string has
      no entries and behaves as `Obj([])`.
  */
  datatype Payload = Falsy | Str(s: string) | Obj(fields: Fields)

  /** `typeof msg === 'string' ? msg : JSON.stringify(msg)`. */
  function Stringify(m: Message): string {
    match m
    case Text(s) => s
    case Json(e) => e
  }

  /** `Array.isArray(messages) ? messages : [messages]`. */
  function Messages(v: FieldValue): (ms: seq<Message>)
    ensures v.Single? ==> |ms| == 1
  {
    match v
    case Single(m) => [m]
    case List(ms) => ms
  }

  /**
    JavaScript truthiness of a JSON value: the empty string, `null`, `false`
    and `0` are falsy (their `JSON.stringify` texts are `null`, `false` and
    `0`); arrays and objects are always truthy.
  */
  predicate Truthy(v: FieldValue) {
    match v
    case Single(Text(s)) => s != ""
    case Single(Json(e)) => e != "null" && e != "false" && e != "0"
    case List(_) => true
  }

  // ---------------------------------------------------------------------------
  // Table lookups
  // ---------------------------------------------------------------------------

  /** The index of the first entry whose key satisfies `p`, scanning in table order. */
  function FirstIndex<V>(table: seq<(string, V)>, p: string -> bool): (r: Option<nat>)
    ensures r.Some? ==> r.value < |table| && p(table[r.value].0)
    ensures r.Some? ==> forall j :: 0 <= j < r.value ==> !p(table[j].0)
    ensures r.None? ==> forall j :: 0 <= j < |table| ==> !p(table[j].0)
  {
    if table == [] then None
    else if p(table[0].0) then Some(0)
    else
      match FirstIndex(table[1..], p)
      case None => None
      case Some(k) => Some(k + 1)
  }

  /**
    `table[key]`: the value stored under `key`, if any. The scan takes the
    first entry with the key, where a JavaScript object literal keeps the
    last; the two agree on tables with distinct keys, which both of the
    dashboard's tables have (`AppTablesWellFormed`).
  */
  function Lookup(table: Table, key: string): (r: Option<string>)
    ensures r.Some? <==> exists i :: 0 <= i < |table| && table[i].0 == key
    ensures r.Some? ==> exists i :: 0 <= i < |table| && table[i] == (key, r.value)
  {
    match FirstIndex(table, k => k == key)
    case Some(i) => Some(table[i].1)
    case None => None
  }

  /** `fieldNames[key] || key`. */
  function Label(t: Tables, key: string): (r: string)
    ensures r == key || exists i :: 0 <= i < |t.fieldNames| && t.fieldNames[i] == (key, r)
    ensures key != "" ==> r != ""
  {
    var l := Lookup(t.fieldNames, key);
    if l.Some? && l.value != "" then l.value else key
  }

  /**
    The translation of one message: its exact entry in `ErrorMessages` if it
    has one; otherwise the value of the first key, in table order, that occurs
    in the message; otherwise the message itself.
  */
  function Translate(t: Tables, msg: string): (r: string)
    ensures r == msg || exists i :: 0 <= i < |t.errorMessages| && r == t.errorMessages[i].1
  {
    var exact := Lookup(t.errorMessages, msg);
    if exact.Some? && exact.value != "" then exact.value
    else
      match FirstIndex(t.errorMessages, eng => Contains(msg, eng))
      case Some(i) => t.errorMessages[i].1
      case None => msg
  }

  /**
    The translation step of the field-map branch, as the source runs it: the
    exact lookup, then a scan of the table in order that stops at the first
    key contained in the message.
  */
  method TranslateMessage(t: Tables, msg: string) returns (translatedMsg: string)
    ensures translatedMsg == Translate(t, msg)
  {
    translatedMsg := msg;
    var exact := Lookup(t.errorMessages, translatedMsg);
    if exact.Some? && exact.value != "" {
      translatedMsg := exact.value;
    } else {
      var i := 0;
      while i < |t.errorMessages|
        invariant 0 <= i <= |t.errorMessages|
        invariant translatedMsg == msg
        invariant forall j :: 0 <= j < i ==> !Contains(msg, t.errorMessages[j].0)
      {
        var (eng, uz) := t.errorMessages[i];
        if Contains(translatedMsg, eng) {
          translatedMsg := uz;
          break;
        }
        i := i + 1;
      }
    }
  }

  // ---------------------------------------------------------------------------
  // The normaliser
  // ---------------------------------------------------------------------------

  /** One output line for one message under `key`. */
  function Line(t: Tables, key: string, m: Message): string {
    var translated := Translate(t, Stringify(m));
    if key == NonFieldErrors then translated else Label(t, key) + ": " + translated
  }

  /** The lines for all messages under one key, in order. */
  function EntryLines(t: Tables, key: string, ms: seq<Message>): (lines: seq<string>)
    ensures |lines| == |ms|
  {
    seq(|ms|, i requires 0 <= i < |ms| => Line(t, key, ms[i]))
  }

  /** The lines for a sequence of entries: entry by entry, message by message. */
  function FieldLines(t: Tables, es: seq<Entry>): seq<string>
  {
    if es == [] then []
    else FieldLines(t, es[..|es| - 1]) + EntryLines(t, es[|es| - 1].0, Messages(es[|es| - 1].1))
  }

  /** The total number of messages across all entries, a non-array value counting as one. */
  function MessageCount(es: seq<Entry>): nat
  {
    if es == [] then 0
    else MessageCount(es[..|es| - 1]) + |Messages(es[|es| - 1].1)|
  }

  /** `error.detail`: the value under the key `detail`, if the object has one. */
  function Detail(fields: seq<Entry>): (r: Option<FieldValue>)
    ensures r.None? <==> forall i :: 0 <= i < |fields| ==> fields[i].0 != "detail"
    ensures r.Some? ==> exists i :: 0 <= i < |fields| && fields[i] == ("detail", r.value)
  {
    match FirstIndex(fields, k => k == "detail")
    case Some(i) => Some(fields[i].1)
    case None => None
  }

  /**
    `getErrorMessage`, by its decision order: a falsy payload gives the
    unknown-error text; a string is returned as it is; a truthy `detail`
    decides alone (its translation or itself when it is a string, the
    generic text otherwise); a field map gives its lines joined by newlines,
    or the generic text when that join is empty. The result is never empty.
  */
  function ErrorMessage(t: Tables, error: Payload): (r: string)
    ensures r != ""
  {
    match error
    case Falsy => UnknownError
    case Str(s) => if s == "" then UnknownError else s
    case Obj(fields) =>
      var detail := Detail(fields);
      if detail.Some? && Truthy(detail.value) then
        match detail.value
        case Single(Text(d)) =>
          var tr := Lookup(t.errorMessages, d);
          if tr.Some? && tr.value != "" then tr.value else d
        case _ => GenericError
      else
        var joined := Join(FieldLines(t, fields), '\n');
        if joined == "" then GenericError else joined
  }

  /**
    The field-map branch of `getErrorMessage` as the source runs it: for each
    entry, for each of its messages, push the translated line.
  */
  method CollectFieldLines(t: Tables, fields: seq<Entry>) returns (errorList: seq<string>)
    ensures errorList == FieldLines(t, fields)
  {
    errorList := [];
    for i := 0 to |fields|
      invariant errorList == FieldLines(t, fields[..i])
    {
      var (key, messages) := fields[i];
      var msgList := Messages(messages);
      ghost var before := errorList;
      for j := 0 to |msgList|
        invariant errorList == before + EntryLines(t, key, msgList[..j])
      {
        var translatedMsg := TranslateMessage(t, Stringify(msgList[j]));
        var fieldName := Label(t, key);
        if key == NonFieldErrors {
          errorList := errorList + [translatedMsg];
        } else {
          errorList := errorList + [fieldName + ": " + translatedMsg];
        }
        EntryLinesSnoc(t, key, msgList, j);
      }
      assert msgList[..|msgList|] == msgList;
      FieldLinesSnoc(t, fields, i);
    }
    assert fields[..|fields|] == fields;
  }

  lemma EntryLinesSnoc(t: Tables, key: string, ms: seq<Message>, j: nat)
    requires j < |ms|
    ensures EntryLines(t, key, ms[..j + 1]) == EntryLines(t, key, ms[..j]) + [Line(t, key, ms[j])]
  {
  }

  lemma FieldLinesSnoc(t: Tables, es: seq<Entry>, i: nat)
    requires i < |es|
    ensures FieldLines(t, es[..i + 1]) == FieldLines(t, es[..i]) + EntryLines(t, es[i].0, Messages(es[i].1))
  {
    assert es[..i + 1][..i] == es[..i];
  }

  /**
    `getErrorMessage` as the source runs it, the field-map branch collecting
    one line per message and joining them.
  */
  method GetErrorMessage(t: Tables, error: Payload) returns (text: string)
    ensures text == ErrorMessage(t, error)
  {
    match error {
      case Falsy =>
        return UnknownError;
      case Str(s) =>
        return if s == "" then UnknownError else s;
      case Obj(fields) =>
        var detail := Detail(fields);
        if detail.Some? && Truthy(detail.value) {
          match detail.value {
            case Single(Text(d)) =>
              var tr := Lookup(t.errorMessages, d);
              text := if tr.Some? && tr.value != "" then tr.value else d;
            case _ =>
              text := GenericError;
          }
          return;
        }
        var errorList := CollectFieldLines(t, fields);
        var joined := Join(errorList, '\n');
        text := if joined == "" then GenericError else joined;
    }
  }

  // ---------------------------------------------------------------------------
  // Properties, for any tables
  // ---------------------------------------------------------------------------

  /** One line per message: the field-map branch produces as many lines as there are messages. */
  lemma {:induction false} FieldLinesCount(t: Tables, es: seq<Entry>)
    ensures |FieldLines(t, es)| == MessageCount(es)
    decreases |es|
  {
    if es != [] {
      FieldLinesCount(t, es[..|es| - 1]);
    }
  }

  /** A field map without any message (no keys, or only empty arrays) gives the generic text. */
  lemma NoMessagesGivesGeneric(t: Tables, fields: Fields)
    requires Detail(fields).None? || !Truthy(Detail(fields).value)
    requires MessageCount(fields) == 0
    ensures ErrorMessage(t, Obj(fields)) == GenericError
  {
    FieldLinesCount(t, fields);
  }

  /**
    A truthy `detail` decides alone: every other entry of the object is
    ignored, so the result is the one for `{detail: v}`.
  */
  lemma DetailShadowsFields(t: Tables, fields: Fields, v: FieldValue)
    requires Detail(fields) == Some(v) && Truthy(v)
    ensures ErrorMessage(t, Obj(fields)) == ErrorMessage(t, Obj([("detail", v)]))
  {
    var single: Fields := [("detail", v)];
    assert Detail(single) == Some(v) by {
      assert (k => k == "detail")(single[0].0);
    }
  }

  /**
    One message under one key, other than a truthy `detail`: the result is its
    single line, `label: message` for an ordinary key (a falsy `detail`
    included) and the bare translation under `non_field_errors`, which falls
    back to the generic text when empty.
  */
  lemma SingleMessageLine(t: Tables, key: string, m: Message)
    requires key != "detail" || !Truthy(Single(m))
    ensures var r := ErrorMessage(t, Obj([(key, Single(m))]));
      var msg := Translate(t, Stringify(m));
      && (key != NonFieldErrors ==> r == Label(t, key) + ": " + msg)
      && (key == NonFieldErrors ==> r == if msg == "" then GenericError else msg)
  {
    var fields: Fields := [(key, Single(m))];
    if key == "detail" {
      assert (k => k == "detail")(fields[0].0);
      assert Detail(fields) == Some(Single(m));
    } else {
      assert FirstIndex(fields[1..], k => k == "detail") == None by {
        assert fields[1..] == [];
      }
      assert Detail(fields).None?;
    }
    assert FieldLines(t, fields) == [Line(t, key, m)] by {
      assert fields[..0] == [];
      assert EntryLines(t, key, [m]) == [Line(t, key, m)];
    }
  }

  /** No label and no translation of the tables holds a line break. */
  predicate SingleLineTables(t: Tables) {
    && (forall i :: 0 <= i < |t.errorMessages| ==> '\n' !in t.errorMessages[i].1)
    && (forall i :: 0 <= i < |t.fieldNames| ==> '\n' !in t.fieldNames[i].1)
  }

  /** A translated message has no line break when the message has none. */
  lemma TranslateNoNewline(t: Tables, msg: string)
    requires SingleLineTables(t)
    requires '\n' !in msg
    ensures '\n' !in Translate(t, msg)
  {
    var exact := Lookup(t.errorMessages, msg);
    if exact.Some? && exact.value != "" {
      var i :| 0 <= i < |t.errorMessages| && t.errorMessages[i] == (msg, exact.value);
    }
  }

  /** A line has no line break when its key and its message have none. */
  lemma LineNoNewline(t: Tables, key: string, m: Message)
    requires SingleLineTables(t)
    requires '\n' !in key && '\n' !in Stringify(m)
    ensures '\n' !in Line(t, key, m)
  {
    TranslateNoNewline(t, Stringify(m));
    var l := Lookup(t.fieldNames, key);
    if l.Some? && l.value != "" {
      var i :| 0 <= i < |t.fieldNames| && t.fieldNames[i] == (key, l.value);
    }
    var translated := Translate(t, Stringify(m));
    assert Label(t, key) + ": " + translated == Label(t, key) + [':', ' '] + translated;
  }

  /** No key and no message of the entries contains a line break. */
  predicate SingleLineEntries(es: seq<Entry>) {
    forall i :: 0 <= i < |es| ==>
      && '\n' !in es[i].0
      && forall k :: 0 <= k < |Messages(es[i].1)| ==> '\n' !in Stringify(Messages(es[i].1)[k])
  }

  lemma {:induction false} FieldLinesNoNewline(t: Tables, es: seq<Entry>)
    requires SingleLineTables(t)
    requires SingleLineEntries(es)
    ensures forall i :: 0 <= i < |FieldLines(t, es)| ==> '\n' !in FieldLines(t, es)[i]
    decreases |es|
  {
    if es != [] {
      var init := es[..|es| - 1];
      assert SingleLineEntries(init) by {
        forall i | 0 <= i < |init| ensures init[i] == es[i] { }
      }
      FieldLinesNoNewline(t, init);
      var (key, v) := es[|es| - 1];
      var ms := Messages(v);
      forall k | 0 <= k < |ms| ensures '\n' !in Line(t, key, ms[k]) {
        LineNoNewline(t, key, ms[k]);
      }
    }
  }

  /**
    When no key, no message and no table text holds a line break, the
    field-map result of a payload with at least one message splits at its
    newlines into exactly one line per message.
  */
  lemma LinesPerMessage(t: Tables, fields: Fields)
    requires SingleLineTables(t)
    requires Detail(fields).None? || !Truthy(Detail(fields).value)
    requires SingleLineEntries(fields)
    requires MessageCount(fields) >= 1
    ensures |Split(ErrorMessage(t, Obj(fields)), '\n')| == MessageCount(fields)
  {
    var lines := FieldLines(t, fields);
    FieldLinesCount(t, fields);
    if Join(lines, '\n') == "" {
      JoinEmpty(lines, '\n');
      GenericErrorSingleLine();
    } else {
      FieldLinesNoNewline(t, fields);
      SplitJoin(lines, '\n');
    }
  }

  lemma GenericErrorSingleLine()
    ensures Split(GenericError, '\n') == [GenericError]
  {
    assert '\n' !in GenericError;
    SplitPlain(GenericError, '\n');
  }

  /** Each key occurs once in the table. */
  predicate DistinctTableKeys(table: Table) {
    forall i, j :: 0 <= i < j < |table| ==> table[i].0 != table[j].0
  }

  /**
    An exact entry of the message table is translated to its own value, even
    where an earlier key also occurs in it.
  */
  lemma ExactTranslation(t: Tables, i: nat)
    requires DistinctTableKeys(t.errorMessages)
    requires i < |t.errorMessages| && t.errorMessages[i].1 != ""
    ensures Translate(t, t.errorMessages[i].0) == t.errorMessages[i].1
  {
    var key := t.errorMessages[i].0;
    assert (k => k == key)(t.errorMessages[i].0);
  }

  /** A key with a non-empty label in the field table is shown as that label. */
  lemma LabelOfEntry(t: Tables, i: nat)
    requires DistinctTableKeys(t.fieldNames)
    requires i < |t.fieldNames| && t.fieldNames[i].1 != ""
    ensures Label(t, t.fieldNames[i].0) == t.fieldNames[i].1
  {
    var key := t.fieldNames[i].0;
    assert (k => k == key)(t.fieldNames[i].0);
  }

  /** A key missing from the field table is shown as itself. */
  lemma LabelOfUnknownKey(t: Tables, key: string)
    requires forall i :: 0 <= i < |t.fieldNames| ==> t.fieldNames[i].0 != key
    ensures Label(t, key) == key
  {
  }

  /** A message in which no table key occurs is left as it is. */
  lemma UnknownMessageUnchanged(t: Tables, msg: string)
    requires forall i :: 0 <= i < |t.errorMessages| ==> !Contains(msg, t.errorMessages[i].0)
    ensures Translate(t, msg) == msg
  {
  }

  /**
    Among the keys that occur in a message that is not itself a key, the first
    in table order wins.
  */
  lemma FirstContainedKeyWins(t: Tables, msg: string, k: nat)
    requires forall i :: 0 <= i < |t.errorMessages| ==> t.errorMessages[i].0 != msg
    requires k < |t.errorMessages| && Contains(msg, t.errorMessages[k].0)
    requires forall j :: 0 <= j < k ==> !Contains(msg, t.errorMessages[j].0)
    ensures Translate(t, msg) == t.errorMessages[k].1
  {
  }

  // ---------------------------------------------------------------------------
  // Facts about the dashboard's own tables
  // ---------------------------------------------------------------------------

  /** Both tables have distinct keys, and the message table has non-empty translations. */
  lemma AppTablesWellFormed()
    ensures DistinctTableKeys(FieldNames)
    ensures DistinctTableKeys(ErrorMessages)
    ensures forall i :: 0 <= i < |ErrorMessages| ==> ErrorMessages[i].1 != ""
  {
    AppFieldKeysDistinct();
  }

  lemma AppFieldKeysDistinct()
    ensures DistinctTableKeys(FieldNames)
  {
  }

  /** No text of the dashboard's tables holds a line break. */
  lemma AppTablesSingleLine()
    ensures SingleLineTables(AppTables)
  {
    AppMessagesSingleLine();
    AppLabelsSingleLine();
  }

  lemma AppMessagesSingleLine()
    ensures forall i :: 0 <= i < |ErrorMessages| ==> '\n' !in ErrorMessages[i].1
  {
    AppMessage0SingleLine();
    AppMessage1SingleLine();
    AppMessage2SingleLine();
    AppMessage3SingleLine();
    AppMessage4SingleLine();
    AppMessage5SingleLine();
    AppMessage6SingleLine();
    AppMessage7SingleLine();
    AppMessage8SingleLine();
  }

  // One lemma per translation keeps each literal's check small.

  lemma AppMessage0SingleLine()
    ensures '\n' !in ErrorMessages[0].1
  {
  }

  lemma AppMessage1SingleLine()
    ensures '\n' !in ErrorMessages[1].1
  {
  }

  lemma AppMessage2SingleLine()
    ensures '\n' !in ErrorMessages[2].1
  {
  }

  lemma AppMessage3SingleLine()
    ensures '\n' !in ErrorMessages[3].1
  {
  }

  lemma AppMessage4SingleLine()
    ensures '\n' !in ErrorMessages[4].1
  {
  }

  lemma AppMessage5SingleLine()
    ensures '\n' !in ErrorMessages[5].1
  {
  }

  lemma AppMessage6SingleLine()
    ensures '\n' !in ErrorMessages[6].1
  {
  }

  lemma AppMessage7SingleLine()
    ensures '\n' !in ErrorMessages[7].1
  {
  }

  lemma AppMessage8SingleLine()
    ensures '\n' !in ErrorMessages[8].1
  {
  }


  lemma AppLabelsSingleLine()
    ensures forall i :: 0 <= i < |FieldNames| ==> '\n' !in FieldNames[i].1
  {
  }
}
