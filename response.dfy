/**
 What the uploader does when a reply completes: classify the transport
 result, the rate-limit header and the XML body into exactly one outcome.
 The XML tokenizer is abstracted to the list of tokens it yields; a start
 element carries its name and the text `readElementText` would return for it.
 */
module Response {

  datatype ErrorKind = ErrorFile | ErrorNetwork | ErrorCancel | ErrorCredits | ErrorUpload

  /** The three signals the uploader emits to its owner. */
  datatype Signal =
    | Error(fileName: string, kind: ErrorKind)
    | Uploaded(fileName: string, url: string, deleteHash: string)
    | UploadProgress(sent: int, total: int)

  /** The transport's error code of a finished reply, reduced to what is told apart. */
  datatype NetworkError = NoError | OperationCanceledError | OtherError

  datatype Token = StartElement(name: string, text: string) | OtherToken

  /** The rate-limit header value that means no upload credits are left. */
  const CreditsExhausted: string := "0"

  /** The response element holding the URL: the image itself in direct mode, else its page. */
  function UrlField(directUrl: bool): (field: string)
    ensures directUrl ==> field == "original"
    ensures !directUrl ==> field == "imgur_page"
  {
    if directUrl then "original" else "imgur_page"
  }

  predicate Starts(t: Token, name: string) {
    t.StartElement? && t.name == name
  }

  /** Some start element in `tokens` is called `name`. */
  predicate Occurs(tokens: seq<Token>, name: string) {
    exists i :: 0 <= i < |tokens| && Starts(tokens[i], name)
  }

  /** Position `i` holds the last start element called `name`. */
  predicate IsLast(tokens: seq<Token>, name: string, i: int) {
    && 0 <= i < |tokens|
    && Starts(tokens[i], name)
    && forall j :: i < j < |tokens| ==> !Starts(tokens[j], name)
  }

  /** The text of the last start element called `name`, empty when there is none. */
  function LastText(tokens: seq<Token>, name: string): string
    decreases |tokens|
  {
    if tokens == [] then ""
    else if Starts(tokens[|tokens| - 1], name) then tokens[|tokens| - 1].text
    else LastText(tokens[..|tokens| - 1], name)
  }

  lemma {:induction false} LastTextAbsent(tokens: seq<Token>, name: string)
    requires !Occurs(tokens, name)
    ensures LastText(tokens, name) == ""
    decreases |tokens|
  {
    if tokens != [] {
      var init := tokens[..|tokens| - 1];
      assert !Starts(tokens[|tokens| - 1], name);
      assert !Occurs(init, name) by {
        forall i | 0 <= i < |init| ensures !Starts(init[i], name) {
          assert init[i] == tokens[i];
        }
      }
      LastTextAbsent(init, name);
    }
  }

  /** Later occurrences overwrite earlier ones: the text is that of the last occurrence. */
  lemma {:induction false} LastTextLatest(tokens: seq<Token>, name: string, i: int)
    requires IsLast(tokens, name, i)
    ensures LastText(tokens, name) == tokens[i].text
    decreases |tokens|
  {
    if i < |tokens| - 1 {
      var init := tokens[..|tokens| - 1];
      assert !Starts(tokens[|tokens| - 1], name);
      assert IsLast(init, name, i) by {
        forall j | i < j < |init| ensures !Starts(init[j], name) {
          assert init[j] == tokens[j];
        }
      }
      LastTextLatest(init, name, i);
    }
  }

  lemma {:induction false} LastOccurrence(tokens: seq<Token>, name: string)
    requires Occurs(tokens, name)
    ensures exists i :: IsLast(tokens, name, i)
    decreases |tokens|
  {
    var n := |tokens| - 1;
    if Starts(tokens[n], name) {
      assert IsLast(tokens, name, n);
    } else {
      var init := tokens[..n];
      assert Occurs(init, name) by {
        var i :| 0 <= i < |tokens| && Starts(tokens[i], name);
        assert i < n && init[i] == tokens[i];
      }
      LastOccurrence(init, name);
      var i :| IsLast(init, name, i);
      forall j | i < j < |tokens| ensures !Starts(tokens[j], name) {
        if j < n { assert init[j] == tokens[j]; }
      }
      assert IsLast(tokens, name, i);
    }
  }

  /**
   The scan of the response body: `hasError` tells whether an `error` start
   element occurs, and `url` and `deleteHash` hold the text of the last
   `urlOption` and `deletehash` elements (empty when absent).
   */
  method ScanResponse(tokens: seq<Token>, urlOption: string) returns (hasError: bool, url: string, deleteHash: string)
    ensures hasError <==> Occurs(tokens, "error")
    ensures url == LastText(tokens, urlOption)
    ensures deleteHash == LastText(tokens, "deletehash")
  {
    hasError, url, deleteHash := false, "", "";
    var i := 0;
    while i < |tokens|
      invariant 0 <= i <= |tokens|
      invariant hasError <==> Occurs(tokens[..i], "error")
      invariant url == LastText(tokens[..i], urlOption)
      invariant deleteHash == LastText(tokens[..i], "deletehash")
    {
      var t := tokens[i];
      if t.StartElement? {
        if t.name == "error" {
          hasError := true;
        }
        if t.name == "deletehash" {
          deleteHash := t.text;
        }
        if t.name == urlOption {
          url := t.text;
        }
      }
      assert tokens[..i + 1][..i] == tokens[..i];
      assert Occurs(tokens[..i + 1], "error") <==> Occurs(tokens[..i], "error") || Starts(t, "error") by {
        if Occurs(tokens[..i + 1], "error") {
          var j :| 0 <= j < i + 1 && Starts(tokens[..i + 1][j], "error");
          if j < i { assert tokens[..i][j] == tokens[..i + 1][j]; }
        }
        if Occurs(tokens[..i], "error") {
          var j :| 0 <= j < i && Starts(tokens[..i][j], "error");
          assert tokens[..i + 1][j] == tokens[..i][j];
        }
        if Starts(t, "error") {
          assert tokens[..i + 1][i] == t;
        }
      }
      i := i + 1;
    }
    assert tokens[..i] == tokens;
  }

  /**
   The one outcome of a finished reply. A canceled transfer is ErrorCancel and
   any other transport error ErrorNetwork; with no transport error, a
   rate-limit value of "0" is ErrorCredits whatever the body; otherwise the
   upload succeeded exactly when the body has no `error` element and both the
   URL and the delete hash are non-empty.
   */
  function Completion(fileName: string, error: NetworkError, rateLimitRemaining: string,
                      body: seq<Token>, directUrl: bool): (s: Signal)
    ensures s.Error? || s.Uploaded?
    ensures s.fileName == fileName
    ensures error == OperationCanceledError ==> s == Error(fileName, ErrorCancel)
    ensures error == OtherError ==> s == Error(fileName, ErrorNetwork)
    ensures error == NoError && rateLimitRemaining == CreditsExhausted ==> s == Error(fileName, ErrorCredits)
    ensures error == NoError && rateLimitRemaining != CreditsExhausted ==> s != Error(fileName, ErrorCredits)
  {
    if error == OperationCanceledError then Error(fileName, ErrorCancel)
    else if error != NoError then Error(fileName, ErrorNetwork)
    else if rateLimitRemaining == CreditsExhausted then Error(fileName, ErrorCredits)
    else
      var url := LastText(body, UrlField(directUrl));
      var deleteHash := LastText(body, "deletehash");
      if deleteHash == "" || url == "" || Occurs(body, "error") then Error(fileName, ErrorUpload)
      else Uploaded(fileName, url, deleteHash)
  }

  /**
   With no transport error and credits left, the reply yields
   `Uploaded(fileName, url, deleteHash)` if and only if no `error` element
   occurs, the last URL element has the non-empty text `url` and the last
   `deletehash` element has the non-empty text `deleteHash`; every other body
   yields ErrorUpload.
   */
  lemma UploadedExactly(fileName: string, rateLimitRemaining: string, body: seq<Token>,
                        directUrl: bool, url: string, deleteHash: string)
    requires rateLimitRemaining != CreditsExhausted
    ensures Completion(fileName, NoError, rateLimitRemaining, body, directUrl) == Uploaded(fileName, url, deleteHash)
        <==> && !Occurs(body, "error")
             && url != "" && deleteHash != ""
             && (exists i :: IsLast(body, UrlField(directUrl), i) && body[i].text == url)
             && (exists j :: IsLast(body, "deletehash", j) && body[j].text == deleteHash)
    ensures Completion(fileName, NoError, rateLimitRemaining, body, directUrl).Error?
        ==> Completion(fileName, NoError, rateLimitRemaining, body, directUrl) == Error(fileName, ErrorUpload)
  {
    var field := UrlField(directUrl);
    var s := Completion(fileName, NoError, rateLimitRemaining, body, directUrl);
    if s == Uploaded(fileName, url, deleteHash) {
      LastOccurrenceText(body, field);
      LastOccurrenceText(body, "deletehash");
    }
    if exists i :: IsLast(body, field, i) && body[i].text == url {
      var i :| IsLast(body, field, i) && body[i].text == url;
      LastTextLatest(body, field, i);
    }
    if exists j :: IsLast(body, "deletehash", j) && body[j].text == deleteHash {
      var j :| IsLast(body, "deletehash", j) && body[j].text == deleteHash;
      LastTextLatest(body, "deletehash", j);
    }
  }

  /** A non-empty text comes from the last occurrence of the element. */
  lemma LastOccurrenceText(tokens: seq<Token>, name: string)
    requires LastText(tokens, name) != ""
    ensures exists i :: IsLast(tokens, name, i) && tokens[i].text == LastText(tokens, name)
  {
    if !Occurs(tokens, name) {
      LastTextAbsent(tokens, name);
    } else {
      LastOccurrence(tokens, name);
      var i :| IsLast(tokens, name, i);
      LastTextLatest(tokens, name, i);
    }
  }

  /**
   The response `<upload><deletehash>abc</deletehash><imgur_page>http://x/y</imgur_page></upload>`
   with credits left yields `Uploaded(file, "http://x/y", "abc")`; the same body
   with an `error` element added yields ErrorUpload.
   */
  lemma PageResponseExample()
    ensures
      var body := [StartElement("upload", ""), StartElement("deletehash", "abc"), OtherToken,
                   StartElement("imgur_page", "http://x/y"), OtherToken, OtherToken];
      && Completion("file", NoError, "42", body, false) == Uploaded("file", "http://x/y", "abc")
      && Completion("file", NoError, "42", body + [StartElement("error", "")], false) == Error("file", ErrorUpload)
  {
    var body := [StartElement("upload", ""), StartElement("deletehash", "abc"), OtherToken,
                 StartElement("imgur_page", "http://x/y"), OtherToken, OtherToken];
    assert !Occurs(body, "error") by {
      forall i | 0 <= i < |body| ensures !Starts(body[i], "error") { }
    }
    assert IsLast(body, "imgur_page", 3);
    LastTextLatest(body, "imgur_page", 3);
    assert IsLast(body, "deletehash", 1);
    LastTextLatest(body, "deletehash", 1);
    var withError := body + [StartElement("error", "")];
    assert Starts(withError[|body|], "error");
  }
}
