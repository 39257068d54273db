/**
 * The per-session state of the chat page (`st.session_state`) and the steps
 * that change it: login and logout, the one-time creation of the chat keys,
 * model selection, and one chat turn.
 */
module ChatSession {
  import opened Wrappers
  import opened ModelCatalog
  import opened Safeword
  import opened Credentials
  import opened ResponseTransformer

  datatype Role = User | Assistant

  datatype Message = Message(role: Role, content: string)

  /** What a turn sends to the completion provider: model, full history, token limit (streaming). */
  datatype CompletionRequest = CompletionRequest(model: ModelId, history: seq<Message>, maxTokens: nat)

  /** What the provider gives back: the streamed chunk contents, or an exception raised while fetching them. */
  datatype Completion = Streamed(chunks: seq<Chunk>) | Failed(detail: string)

  /** How a turn ends: a reply shown and stored, or an error shown with only the prompt stored. */
  datatype TurnOutcome = Replied(text: string) | UnknownProvider | CallFailed(detail: string)

  const GroqProvider: string := "groq"

  class Session {
    /** `logged_in`. */
    var loggedIn: bool
    /** Whether the chat keys below exist in the session state yet. */
    var chatStateCreated: bool
    /** `messages`: the chat history, oldest first. */
    var messages: seq<Message>
    /** `normal_response_mode`: once true, replies are no longer substituted. */
    var normalResponseMode: bool
    /** `selected_model`. */
    var selectedModel: Option<ModelId>

    /**
     * A selected model is always a key of the catalog, and before the chat keys
     * exist the fields hold the values they will be created with.
     */
    ghost predicate Valid()
      reads this
    {
      && (selectedModel.Some? ==> selectedModel.value in Models)
      && (!chatStateCreated ==> messages == [] && !normalResponseMode && selectedModel == None)
    }

    /** A new session, after `main` has set `logged_in` to False. */
    constructor ()
      ensures Valid()
      ensures !loggedIn && !chatStateCreated
    {
      loggedIn := false;
      chatStateCreated := false;
      messages := [];
      normalResponseMode := false;
      selectedModel := None;
    }

    /** The Login button: `logged_in` becomes true exactly when the credentials check passes. */
    method Login(secrets: map<string, string>, username: string, password: string) returns (ok: bool)
      requires Valid()
      modifies this`loggedIn
      ensures Valid()
      ensures ok <==> CheckCredentials(secrets, username, password)
      ensures loggedIn == (old(loggedIn) || ok)
    {
      ok := CheckCredentials(secrets, username, password);
      if ok {
        loggedIn := true;
      }
    }

    /** The Logout button: only `logged_in` changes; history and response mode are kept. */
    method Logout()
      requires Valid()
      modifies this`loggedIn
      ensures Valid()
      ensures !loggedIn
    {
      loggedIn := false;
    }

    /**
     * The chat keys are created only when absent; existing values, in
     * particular a response mode already switched to normal, are kept.
     */
    method CreateChatState()
      requires Valid()
      modifies this`chatStateCreated, this`messages, this`normalResponseMode, this`selectedModel
      ensures Valid() && chatStateCreated
      ensures messages == old(messages)
      ensures normalResponseMode == old(normalResponseMode)
      ensures selectedModel == old(selectedModel)
    {
      if !chatStateCreated {
        messages := [];
        normalResponseMode := false;
        selectedModel := None;
        chatStateCreated := true;
      }
    }

    /**
     * The model selector: a change of model clears the history and records the
     * new model; the token limit comes from the catalog.
     */
    method SelectModel(option: ModelId) returns (maxTokens: nat)
      requires Valid() && chatStateCreated
      requires option in Models
      modifies this`messages, this`selectedModel
      ensures Valid()
      ensures selectedModel == Some(option)
      ensures old(selectedModel) != Some(option) ==> messages == []
      ensures old(selectedModel) == Some(option) ==> messages == old(messages)
      ensures maxTokens == Models[option].tokens
    {
      if selectedModel != Some(option) {
        messages := [];
        selectedModel := Some(option);
      }
      maxTokens := MaxTokens(option);
    }

    /**
     * One chat turn for a non-empty prompt. The prompt is stored first. If the
     * safeword occurs in it (ignoring case) the mode becomes normal for good and
     * the canned reply is stored without any request. Otherwise the provider is
     * asked with the whole history, and its stream is transformed in meow mode
     * unless the session is in normal mode; on an unknown provider or a failed
     * call nothing but the prompt is stored.
     */
    method ProcessPrompt(prompt: string, safeword: string, option: ModelId, maxTokens: nat,
                         complete: CompletionRequest -> Completion)
      returns (request: Option<CompletionRequest>, outcome: TurnOutcome)
      requires Valid() && chatStateCreated && prompt != ""
      requires option in Models && selectedModel == Some(option) && maxTokens == Models[option].tokens
      modifies this`messages, this`normalResponseMode
      ensures Valid()
      ensures old(normalResponseMode) ==> normalResponseMode
      ensures |messages| == |old(messages)| + (if outcome.Replied? then 2 else 1)
      ensures messages[..|old(messages)| + 1] == old(messages) + [Message(User, prompt)]
      ensures outcome.Replied? ==> messages[|messages| - 1] == Message(Assistant, outcome.text)
      ensures SafewordMatches(safeword, prompt) ==>
        && normalResponseMode
        && request == None
        && outcome == Replied(CannedReply)
      ensures !SafewordMatches(safeword, prompt) && Models[option].provider != GroqProvider ==>
        && normalResponseMode == old(normalResponseMode)
        && request == None
        && outcome == UnknownProvider
      ensures !SafewordMatches(safeword, prompt) && Models[option].provider == GroqProvider ==>
        && normalResponseMode == old(normalResponseMode)
        && request == Some(CompletionRequest(option, old(messages) + [Message(User, prompt)], maxTokens))
        && outcome == match complete(request.value)
           case Streamed(chunks) => Replied(GenerateChatResponse(chunks, !old(normalResponseMode)))
           case Failed(detail) => CallFailed(detail)
    {
      messages := messages + [Message(User, prompt)];
      var reply: string;
      if SafewordMatches(safeword, prompt) {
        normalResponseMode := true;
        request := None;
        reply := CannedReply;
      } else {
        var meowMode := !normalResponseMode;
        if Models[option].provider == GroqProvider {
          var req := CompletionRequest(option, messages, maxTokens);
          request := Some(req);
          match complete(req)
          case Streamed(chunks) =>
            reply := GenerateChatResponse(chunks, meowMode);
          case Failed(detail) =>
            outcome := CallFailed(detail);
            return;
        } else {
          request := None;
          outcome := UnknownProvider;
          return;
        }
      }
      messages := messages + [Message(Assistant, reply)];
      outcome := Replied(reply);
    }
  }

  /**
   * A session in meow mode that is given the safeword answers the next prompt
   * in normal mode (the reply is the provider's text unchanged), and logging
   * out keeps that mode.
   */
  method SafewordScenario(secrets: map<string, string>, safeword: string, complete: CompletionRequest -> Completion)
    requires "username" in secrets && "password" in secrets
  {
    var s := new Session();
    var ok := s.Login(secrets, secrets["username"], secrets["password"]);
    assert ok && s.loggedIn;
    s.CreateChatState();
    CatalogShape();
    var option := ModelOrder[DefaultIndex];
    var maxTokens := s.SelectModel(option);
    assert maxTokens == 32768;
    var prompt := safeword + "!";
    assert OccursAt(ToLower(prompt), ToLower(safeword), 0);
    var _, first := s.ProcessPrompt(prompt, safeword, option, maxTokens, complete);
    assert first == Replied(CannedReply) && s.normalResponseMode && |s.messages| == 2;
    var request, second := s.ProcessPrompt("Hi there!", safeword, option, maxTokens, complete);
    assert s.normalResponseMode;
    if !SafewordMatches(safeword, "Hi there!") && complete(request.value).Streamed? {
      assert second == Replied(JoinChunks(complete(request.value).chunks));
      assert |s.messages| == 4;
    }
    s.Logout();
    assert s.normalResponseMode && !s.loggedIn;
  }
}
