/**
 * The single screen of the app: its state record and the handlers that change
 * it. The remote read (temporary link plus fetch), the upload and the OAuth
 * prompt are not modelled; their outcomes are given to the handlers.
 */
module Screen {
  import opened Optional
  import opened Keys
  import opened StringSplit
  import opened NoteLog

  /** The message shown after any unsuccessful login (App.js line 213). */
  const LoginErrorMessage: string := "Could not login to Dropbox. Please try again."

  /** Outcome of reading the remote log: its text, or a failure of the link or the fetch. */
  datatype Fetched = Fetched(text: string) | FetchFailed

  /** Outcome of uploading the new log. */
  datatype Uploaded = Uploaded | UploadFailed

  /** Outcome of the OAuth prompt: a success carrying the token, or anything else. */
  datatype AuthResult = AuthSuccess(accessToken: string) | AuthOther

  /** What the screen shows. */
  datatype View =
    | Blank
    | NotesView(notes: seq<NoteItem>, input: string, sendEnabled: bool)
    | LoginView(error: Option<string>)

  /** JavaScript truthiness of a nullable string: present and non-empty. */
  predicate Truthy(v: Option<string>)
  {
    v.Some? && v.value != ""
  }

  /**
   * The screen a state selects (App.js lines 53-57, 107, 112-119): blank while
   * loading; otherwise the notes with Send disabled during a send when a token
   * is present; otherwise the login screen with the error when one is set.
   */
  function SelectView(isLoading: bool, accessToken: Option<string>, isSendingMessage: bool,
                      errorMessage: Option<string>, inputText: string, notes: seq<NoteItem>): (v: View)
    ensures v.Blank? <==> isLoading
    ensures v.NotesView? <==> !isLoading && Truthy(accessToken)
    ensures v.NotesView? ==> v.notes == notes && v.input == inputText && (v.sendEnabled <==> !isSendingMessage)
    ensures v.LoginView? ==> !Truthy(accessToken) && (v.error.Some? <==> Truthy(errorMessage))
    ensures v.LoginView? && v.error.Some? ==> v.error == errorMessage
  {
    if isLoading then Blank
    else if Truthy(accessToken) then NotesView(notes, inputText, !isSendingMessage)
    else LoginView(if Truthy(errorMessage) then errorMessage else None)
  }

  /** The component and its state (App.js lines 21-28). */
  class App {
    var accessToken: Option<string>
    var isLoading: bool
    var isSendingMessage: bool
    var errorMessage: Option<string>
    var inputText: string
    var notes: seq<NoteItem>
    /** The log text the notes were last derived from, if any. */
    ghost var log: Option<string>

    /** The notes are always the display items of some fetched or uploaded log, or none yet. */
    ghost predicate Valid()
      reads this
    {
      && (log.None? ==> notes == [])
      && (log.Some? ==> notes == Parse(log.value))
    }

    /**
     * What the invariant gives the displayed list: item i is keyed by the
     * numeral of i, keys identify items, and no displayed note contains the
     * delimiter.
     */
    lemma NotesWellFormed(i: nat, j: nat)
      requires Valid()
      requires i < |notes| && j < |notes|
      ensures notes[i].key == DecimalString(i)
      ensures notes[i].key == notes[j].key <==> i == j
      ensures Free(notes[i].value, Delimiter)
    {
      ParseShape(log.value);
      ParseKeysDistinct(log.value, i, j);
      ParseValuesFree(log.value, i);
    }

    /** What render() shows for the current state. */
    function Render(): View
      reads this
    {
      SelectView(isLoading, accessToken, isSendingMessage, errorMessage, inputText, notes)
    }

    constructor ()
      ensures Valid()
      ensures accessToken == None && isLoading && !isSendingMessage
      ensures errorMessage == None && inputText == "" && notes == []
      ensures Render() == Blank
    {
      accessToken := None;
      isLoading := true;
      isSendingMessage := false;
      errorMessage := None;
      inputText := "";
      notes := [];
      log := None;
    }

    /**
     * componentWillMount (App.js lines 30-38): the stored token becomes the
     * session and loading ends; a load of the notes starts when the token is
     * truthy.
     */
    method Mount(stored: Option<string>) returns (startsLoad: bool)
      requires Valid()
      modifies this
      ensures Valid()
      ensures accessToken == stored && !isLoading
      ensures startsLoad <==> Truthy(stored)
      ensures isSendingMessage == old(isSendingMessage) && errorMessage == old(errorMessage)
      ensures inputText == old(inputText) && notes == old(notes) && log == old(log)
    {
      accessToken := stored;
      isLoading := false;
      startsLoad := Truthy(stored);
    }

    /** _setFileContents (App.js lines 135-148): the notes become the display items of contents. */
    method SetFileContents(contents: string)
      modifies this
      ensures Valid() && log == Some(contents)
      ensures notes == Parse(contents)
      ensures accessToken == old(accessToken) && isLoading == old(isLoading)
      ensures isSendingMessage == old(isSendingMessage) && errorMessage == old(errorMessage)
      ensures inputText == old(inputText)
    {
      notes := Parse(contents);
      log := Some(contents);
    }

    /**
     * The end of _createDropboxObject (App.js lines 130-133): a fetched log is
     * shown; a failed read rejects unhandled and changes nothing.
     */
    method LoadNotes(fetched: Fetched)
      requires Valid()
      modifies this
      ensures Valid()
      ensures fetched.Fetched? ==> notes == Parse(fetched.text) && log == Some(fetched.text)
      ensures fetched.FetchFailed? ==> notes == old(notes) && log == old(log)
      ensures accessToken == old(accessToken) && isLoading == old(isLoading)
      ensures isSendingMessage == old(isSendingMessage) && errorMessage == old(errorMessage)
      ensures inputText == old(inputText)
    {
      if fetched.Fetched? {
        SetFileContents(fetched.text);
      }
    }

    /** onChangeText of the input box (App.js line 99). */
    method ChangeText(text: string)
      requires Valid()
      modifies this
      ensures Valid()
      ensures inputText == text
      ensures accessToken == old(accessToken) && isLoading == old(isLoading)
      ensures isSendingMessage == old(isSendingMessage) && errorMessage == old(errorMessage)
      ensures notes == old(notes) && log == old(log)
    {
      inputText := text;
    }

    /**
     * The start of _onSendAsync (App.js lines 160-164): the typed text is taken,
     * the input cleared and the send marked in flight, which disables Send.
     */
    method StartSend() returns (content: string)
      requires Valid()
      modifies this
      ensures Valid()
      ensures content == old(inputText) && inputText == "" && isSendingMessage
      ensures accessToken == old(accessToken) && isLoading == old(isLoading)
      ensures errorMessage == old(errorMessage) && notes == old(notes) && log == old(log)
      ensures Render().NotesView? ==> !Render().sendEnabled
    {
      content := inputText;
      inputText := "";
      isSendingMessage := true;
    }

    /**
     * The rest of _onSendAsync (App.js lines 166-192). With the log read, the
     * new blob is uploaded; after a successful upload the notes show it. On a
     * failed read or upload the typed text is put back and the notes stay.
     * Either way the send is over. attempted is the blob handed to the upload,
     * none when the read failed.
     */
    method FinishSend(content: string, fetched: Fetched, uploaded: Uploaded) returns (attempted: Option<string>)
      requires Valid()
      modifies this
      ensures Valid()
      ensures !isSendingMessage
      ensures fetched.FetchFailed? ==> attempted == None
      ensures fetched.Fetched? ==> attempted == Some(Compose(content, fetched.text))
      ensures fetched.Fetched? && uploaded.Uploaded? ==>
        notes == Parse(Compose(content, fetched.text)) && log == Some(Compose(content, fetched.text))
        && inputText == old(inputText)
      ensures fetched.FetchFailed? || uploaded.UploadFailed? ==>
        notes == old(notes) && log == old(log) && inputText == content
      ensures accessToken == old(accessToken) && isLoading == old(isLoading)
      ensures errorMessage == old(errorMessage)
    {
      match fetched
      case FetchFailed =>
        attempted := None;
        inputText := content;
        isSendingMessage := false;
      case Fetched(oldText) =>
        var newFile := Compose(content, oldText);
        attempted := Some(newFile);
        if uploaded.Uploaded? {
          SetFileContents(newFile);
          isSendingMessage := false;
        } else {
          inputText := content;
          isSendingMessage := false;
        }
    }

    /**
     * A whole send with nothing typed meanwhile: on success the input is empty
     * and the notes show the new blob; on any failure the input and the notes
     * are as before the send began. Either way no send is in flight afterwards.
     */
    method Send(fetched: Fetched, uploaded: Uploaded) returns (attempted: Option<string>)
      requires Valid()
      modifies this
      ensures Valid()
      ensures fetched.FetchFailed? ==> attempted == None
      ensures fetched.Fetched? ==> attempted == Some(Compose(old(inputText), fetched.text))
      ensures fetched.Fetched? && uploaded.Uploaded? ==>
        notes == Parse(Compose(old(inputText), fetched.text)) && log == Some(Compose(old(inputText), fetched.text))
        && inputText == ""
      ensures fetched.FetchFailed? || uploaded.UploadFailed? ==>
        notes == old(notes) && log == old(log) && inputText == old(inputText)
      ensures !isSendingMessage
      ensures accessToken == old(accessToken) && isLoading == old(isLoading)
      ensures errorMessage == old(errorMessage)
    {
      var content := StartSend();
      attempted := FinishSend(content, fetched, uploaded);
    }

    /** The start of _loginAsync (App.js lines 196-198): the error is cleared. */
    method StartLogin()
      requires Valid()
      modifies this
      ensures Valid()
      ensures errorMessage == None
      ensures accessToken == old(accessToken) && isLoading == old(isLoading)
      ensures isSendingMessage == old(isSendingMessage)
      ensures inputText == old(inputText) && notes == old(notes) && log == old(log)
    {
      errorMessage := None;
    }

    /**
     * The rest of _loginAsync (App.js lines 202-215). A success stores and
     * adopts the redirect's token and starts a load of the notes; anything
     * else sets the fixed error and keeps the token. persisted is what is
     * written to the credential store; startsLoad tells whether a load of the
     * notes (LoadNotes) starts.
     */
    method FinishLogin(result: AuthResult) returns (persisted: Option<string>, startsLoad: bool)
      requires Valid()
      modifies this
      ensures Valid()
      ensures startsLoad <==> result.AuthSuccess?
      ensures result.AuthSuccess? ==>
        persisted == Some(result.accessToken) && accessToken == Some(result.accessToken)
        && errorMessage == old(errorMessage)
      ensures result.AuthOther? ==>
        persisted == None && accessToken == old(accessToken) && errorMessage == Some(LoginErrorMessage)
      ensures isLoading == old(isLoading) && isSendingMessage == old(isSendingMessage)
      ensures inputText == old(inputText) && notes == old(notes) && log == old(log)
    {
      match result
      case AuthSuccess(token) =>
        persisted := Some(token);
        accessToken := Some(token);
        startsLoad := true;
      case AuthOther =>
        persisted := None;
        errorMessage := Some(LoginErrorMessage);
        startsLoad := false;
    }

    /**
     * A whole login: a success adopts the token, leaves no error and starts a
     * load of the notes; anything else shows the fixed error, keeps the token,
     * persists nothing and loads nothing.
     */
    method Login(result: AuthResult) returns (persisted: Option<string>, startsLoad: bool)
      requires Valid()
      modifies this
      ensures Valid()
      ensures startsLoad <==> result.AuthSuccess?
      ensures result.AuthSuccess? ==>
        persisted == Some(result.accessToken) && accessToken == Some(result.accessToken) && errorMessage == None
      ensures result.AuthOther? ==>
        persisted == None && accessToken == old(accessToken) && errorMessage == Some(LoginErrorMessage)
      ensures isLoading == old(isLoading) && isSendingMessage == old(isSendingMessage)
      ensures inputText == old(inputText) && notes == old(notes) && log == old(log)
    {
      StartLogin();
      persisted, startsLoad := FinishLogin(result);
    }
  }

  /**
   * Startup with a stored token, then the first read: the notes screen shows
   * the log without a login; with a failing read it shows the screen anyway,
   * with no notes.
   */
  method StartupWithStoredToken(token: string, fetched: Fetched) returns (app: App)
    requires token != ""
    ensures app.Valid()
    ensures fetched.Fetched? ==> app.Render() == NotesView(Parse(fetched.text), "", true)
    ensures fetched.FetchFailed? ==> app.Render() == NotesView([], "", true)
  {
    app := new App();
    var startsLoad := app.Mount(Some(token));
    if startsLoad {
      app.LoadNotes(fetched);
    }
  }

  /** Sending "hello" to an empty log: the blob uploaded, then the two items shown. */
  method SendHelloToEmptyLog(app: App) returns (attempted: Option<string>)
    requires app.Valid() && app.inputText == "hello"
    modifies app
    ensures attempted == Some("hello" + Delimiter)
    ensures app.notes == [NoteItem("0", ""), NoteItem("1", "hello")]
    ensures app.inputText == "" && !app.isSendingMessage
  {
    attempted := app.Send(Fetched(""), Uploaded);
    SendToEmptyLog();
  }
}
