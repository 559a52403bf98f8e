/**
 * The HTTP transport: a session agent that sends GET and form POST requests,
 * keeps the requests it sent in order, and reads each response from a scripted
 * server.
 */
module Transport {
  import opened Wrappers

  datatype Verb = GET | POST

  /** One request as the site sees it; `fields` is the url-encoded form body. */
  datatype Request = Request(verb: Verb, url: string, fields: seq<(string, string)>)

  /**
   * The remote site. Its answer to a request is a function of everything this
   * session has sent so far, the request itself last: this is how the model
   * stands for the cookies the agent collects. The answer is the response text
   * or the message of the transport error the request raised.
   */
  type Server = seq<Request> -> Result<string, string>

  function GetRequest(url: string): Request
  {
    Request(GET, url, [])
  }

  class Agent {
    const server: Server
    /** The requests this agent has sent, oldest first. */
    var log: seq<Request>

    /** A fresh agent: no cookies, nothing sent. */
    constructor (server: Server)
      ensures this.server == server && log == []
    {
      this.server := server;
      log := [];
    }

    method Get(url: string) returns (res: Result<string, string>)
      modifies this`log
      ensures log == old(log) + [GetRequest(url)]
      ensures res == server(log)
    {
      log := log + [GetRequest(url)];
      res := server(log);
    }

    method PostForm(url: string, fields: seq<(string, string)>) returns (res: Result<string, string>)
      modifies this`log
      ensures log == old(log) + [Request(POST, url, fields)]
      ensures res == server(log)
    {
      log := log + [Request(POST, url, fields)];
      res := server(log);
    }
  }
}
