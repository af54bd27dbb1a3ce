/** The error taxonomy of the domain layer: each exception class becomes a constructor
    function producing its message, its API error type and the base class it extends. */
module Exceptions {
  import opened Optional
  import opened Text

  /** The API error types the exceptions carry. */
  datatype ApiErrorType = UserNotFound | DuplicatedCpf | InvalidCpf | InvalidPayload | NullPayload | UnexpectedError

  /** The base class an exception extends: `BadRequestException`, `ConflictException`,
      `NotFoundException`, or `BaseException` directly. */
  datatype Category = BadRequest | Conflict | NotFound | Base

  /** A raised exception: its base class, its message and its error type. */
  datatype Exception = Exception(category: Category, message: string, errorType: ApiErrorType)

  /** One `key to value` search term, the value already rendered as text (`None` for null). */
  datatype SearchTerm = SearchTerm(key: string, value: Option<string>)

  /** The terms whose value is non-null, in their original order. */
  function NonNullTerms(search: seq<SearchTerm>): (r: seq<SearchTerm>)
    ensures |r| <= |search|
    ensures forall i | 0 <= i < |r| :: r[i].value.Some?
  {
    if search == [] then []
    else if search[0].value.Some? then [search[0]] + NonNullTerms(search[1..])
    else NonNullTerms(search[1..])
  }

  /** A term is kept exactly when it is one of the given terms and its value is non-null. */
  lemma {:induction false} NonNullTermsMembers(search: seq<SearchTerm>)
    ensures forall t :: t in NonNullTerms(search) <==> t in search && t.value.Some?
  {
    if search != [] {
      NonNullTermsMembers(search[1..]);
      assert search == [search[0]] + search[1..];
    }
  }

  /** Filtering distributes over concatenation: relative order is kept. */
  lemma {:induction false} NonNullTermsAppend(a: seq<SearchTerm>, b: seq<SearchTerm>)
    ensures NonNullTerms(a + b) == NonNullTerms(a) + NonNullTerms(b)
  {
    if a == [] {
      assert a + b == b;
    } else {
      assert (a + b)[1..] == a[1..] + b;
      NonNullTermsAppend(a[1..], b);
    }
  }

  /** When no term is null, nothing is filtered out. */
  lemma {:induction false} NonNullTermsAllPresent(search: seq<SearchTerm>)
    requires forall i | 0 <= i < |search| :: search[i].value.Some?
    ensures NonNullTerms(search) == search
  {
    if search != [] {
      NonNullTermsAllPresent(search[1..]);
    }
  }

  /** Two nullable terms ahead of terms that are all present: each nullable one is kept
      exactly when it is non-null, and the rest follow unchanged. */
  lemma NonNullTermsAfterOptional(terms: seq<SearchTerm>)
    requires |terms| >= 2
    requires forall i | 2 <= i < |terms| :: terms[i].value.Some?
    ensures NonNullTerms(terms)
         == (if terms[0].value.Some? then [terms[0]] else []) + ((if terms[1].value.Some? then [terms[1]] else []) + terms[2..])
  {
    var tail := terms[1..];
    assert tail[0] == terms[1] && tail[1..] == terms[2..];
    NonNullTermsAllPresent(terms[2..]);
  }

  /** `"key: value"`. */
  function FormatTerm(t: SearchTerm): string
    requires t.value.Some?
  {
    t.key + ": " + t.value.value
  }

  /** The formatted terms joined by `", "`. */
  function JoinTerms(terms: seq<SearchTerm>): (r: string)
    requires forall i | 0 <= i < |terms| :: terms[i].value.Some?
    ensures r == "" <==> terms == []
  {
    if terms == [] then ""
    else if |terms| == 1 then FormatTerm(terms[0])
    else FormatTerm(terms[0]) + ", " + JoinTerms(terms[1..])
  }

  /** Appending a term appends `", "` and its formatted text. */
  lemma {:induction false} JoinTermsSnoc(terms: seq<SearchTerm>, t: SearchTerm)
    requires terms != []
    requires forall i | 0 <= i < |terms| :: terms[i].value.Some?
    requires t.value.Some?
    ensures JoinTerms(terms + [t]) == JoinTerms(terms) + ", " + FormatTerm(t)
  {
    if |terms| == 1 {
      assert terms + [t] == [terms[0], t];
      assert (terms + [t])[1..] == [t];
    } else {
      assert (terms + [t])[1..] == terms[1..] + [t];
      JoinTermsSnoc(terms[1..], t);
    }
  }

  /** The `NotFoundException` message: the base message, then, when some term is
      non-null, `" - "` and the non-null terms as `"k: v"` joined by `", "`. */
  function NotFoundMessage(message: string, search: seq<SearchTerm>): (r: string)
    ensures |message| <= |r| && r[..|message|] == message
  {
    var present := NonNullTerms(search);
    message + (if present == [] then "" else " - " + JoinTerms(present))
  }

  /** The message is the bare base message exactly when every term is null. */
  lemma NotFoundMessageBareIff(message: string, search: seq<SearchTerm>)
    ensures NotFoundMessage(message, search) == message <==> forall t | t in search :: t.value == None
  {
    var present := NonNullTerms(search);
    NonNullTermsMembers(search);
    if present != [] {
      assert present[0] in search && present[0].value.Some?;
      assert |NotFoundMessage(message, search)| > |message|;
    } else {
      forall t | t in search ensures t.value == None {
        assert t !in present;
      }
    }
  }

  /** With a single non-null term, it is appended after `" - "`. */
  lemma NotFoundMessageOneTerm(message: string, key: string, value: string)
    ensures NotFoundMessage(message, [SearchTerm(key, Some(value))]) == message + " - " + key + ": " + value
  {
    assert NonNullTerms([SearchTerm(key, Some(value))]) == [SearchTerm(key, Some(value))];
  }

  /** `NotFoundException(message, type, *search)`. */
  function NotFoundException(message: string, errorType: ApiErrorType, search: seq<SearchTerm>): (e: Exception)
    ensures e.category == NotFound && e.errorType == errorType
  {
    Exception(NotFound, NotFoundMessage(message, search), errorType)
  }

  const UserNotFoundMessage := "No users found using the search terms provided"

  /** `UserNotFoundException(*search)`: the fixed base message and the `USER_NOT_FOUND` type. */
  function UserNotFoundException(search: seq<SearchTerm>): (e: Exception)
    ensures e.category == NotFound && e.errorType == UserNotFound
    ensures e.message == NotFoundMessage(UserNotFoundMessage, search)
  {
    NotFoundException(UserNotFoundMessage, UserNotFound, search)
  }

  /** Without terms the message is the base message exactly; with one term it follows
      after `" - "`. */
  lemma UserNotFoundMessages(key: string, value: string)
    ensures UserNotFoundException([]).message == "No users found using the search terms provided"
    ensures UserNotFoundException([SearchTerm(key, Some(value))]).message
         == "No users found using the search terms provided - " + key + ": " + value
  {
    NotFoundMessageOneTerm(UserNotFoundMessage, key, value);
  }

  /** `NullPayloadException(payload)`: the payload name is placed between "The" and
      "payload" without spaces when non-blank; a blank name leaves one space; a null one
      reads as " null ". */
  function NullPayloadException(payload: Option<string>): (e: Exception)
    ensures e.category == BadRequest && e.errorType == NullPayload
  {
    var name := match payload case Some(p) => IfBlank(p, " ") case None => " null ";
    Exception(BadRequest, "The" + name + "payload can't be null", NullPayload)
  }

  lemma NullPayloadMessages(p: string)
    ensures !IsBlank(p) ==> NullPayloadException(Some(p)).message == "The" + p + "payload can't be null"
    ensures IsBlank(p) ==> NullPayloadException(Some(p)).message == "The payload can't be null"
  {
  }

  /** The default payload name is null, which the template renders as " null ". */
  lemma NullPayloadDefaultMessage()
    ensures NullPayloadException(None).message == "The null payload can't be null"
  {
  }

  const DuplicatedCpfPrefix := "The CPF "
  const DuplicatedCpfSuffix := " is already registered"

  /** `DuplicatedCpfException(cpf)`: a conflict naming the CPF verbatim. */
  function DuplicatedCpfException(cpf: string): (e: Exception)
    ensures e.category == Conflict && e.errorType == DuplicatedCpf
  {
    Exception(Conflict, DuplicatedCpfPrefix + cpf + DuplicatedCpfSuffix, DuplicatedCpf)
  }

  /** Reads the CPF back out of a duplicated-CPF message. */
  function CpfOfDuplicatedMessage(m: string): Option<string> {
    var lo, hi := |DuplicatedCpfPrefix|, |DuplicatedCpfSuffix|;
    if |m| >= lo + hi && m[..lo] == DuplicatedCpfPrefix && m[|m| - hi..] == DuplicatedCpfSuffix
    then Some(m[lo..|m| - hi])
    else None
  }

  /** The CPF appears verbatim: it can be read back from the message. */
  lemma DuplicatedCpfMessageRoundTrip(cpf: string)
    ensures CpfOfDuplicatedMessage(DuplicatedCpfException(cpf).message) == Some(cpf)
  {
    var m := DuplicatedCpfException(cpf).message;
    var lo, hi := |DuplicatedCpfPrefix|, |DuplicatedCpfSuffix|;
    assert m[..lo] == DuplicatedCpfPrefix;
    assert m[|m| - hi..] == DuplicatedCpfSuffix;
    assert m[lo..|m| - hi] == cpf;
  }

  /** An empty CPF leaves a double space in the message. */
  lemma DuplicatedEmptyCpfMessage()
    ensures var m := DuplicatedCpfException("").message;
            m == DuplicatedCpfPrefix + DuplicatedCpfSuffix && m[7] == ' ' && m[8] == ' '
  {
    assert DuplicatedCpfPrefix + "" == DuplicatedCpfPrefix;
  }

  /** Kotlin's rendering of a nullable text in a string template. */
  function TemplateText(s: Option<string>): string {
    s.GetOr("null")
  }

  const InvalidCpfPrefix := "The given CPF is invalid: "

  /** `InvalidCpfException(cpf)`: a bad request naming the CPF, or "null". */
  function InvalidCpfException(cpf: Option<string>): (e: Exception)
    ensures e.category == BadRequest && e.errorType == InvalidCpf
  {
    Exception(BadRequest, InvalidCpfPrefix + TemplateText(cpf), InvalidCpf)
  }

  const InvalidPayloadPrefix := "Invalid payload: "

  /** `InvalidPayloadException(payload)`, the payload given by its string form. */
  function InvalidPayloadException(payload: Option<string>): (e: Exception)
    ensures e.category == BadRequest && e.errorType == InvalidPayload
  {
    Exception(BadRequest, InvalidPayloadPrefix + TemplateText(payload), InvalidPayload)
  }

  /** Both templates end with the rendered argument after a fixed prefix, which reads
      "null" for a null argument. */
  lemma BadRequestTemplates(cpf: Option<string>, payload: Option<string>)
    ensures var m := InvalidCpfException(cpf).message;
            m[..|InvalidCpfPrefix|] == "The given CPF is invalid: " && m[|InvalidCpfPrefix|..] == TemplateText(cpf)
    ensures var m := InvalidPayloadException(payload).message;
            m[..|InvalidPayloadPrefix|] == "Invalid payload: " && m[|InvalidPayloadPrefix|..] == TemplateText(payload)
    ensures InvalidCpfException(None).message == "The given CPF is invalid: null"
    ensures InvalidPayloadException(None).message == "Invalid payload: null"
  {
  }

  const UnexpectedFallback := "Unexpected Error"

  /** `UnexpectedException(message)`: a direct `BaseException` with the `UNEXPECTED_ERROR` type. */
  function UnexpectedException(message: Option<string>): (e: Exception)
    ensures e.category == Base && e.errorType == UnexpectedError
  {
    Exception(Base, message.GetOr(UnexpectedFallback), UnexpectedError)
  }

  /** A null message becomes "Unexpected Error"; any other message is kept verbatim. */
  lemma UnexpectedMessages(m: string)
    ensures UnexpectedException(None).message == "Unexpected Error"
    ensures UnexpectedException(Some(m)).message == m
  {
  }
}
