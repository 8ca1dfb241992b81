/**
 * The fixed VCL text the compiler starts from and closes with, and the
 * escaping applied before the three snippets are stored.
 */
module Snippets {
  import opened Strings

  /** The start of the `init` snippet: the edge dictionary `path_redirect`. */
  const TableInit: string := @"
// cloudlet_redirect_table begins

table path_redirect {
"

  /** The start of the `recv` snippet: the declarations the condition blocks set. */
  const LogicInit: string := @"
// cloudlet_redirect_logic begins

declare local var.cust_location STRING;
declare local var.cust_priority STRING;
declare local var.cust_status_code STRING;
declare local var.cust_use_query_string STRING;
declare local var.cust_full_path STRING;

set var.cust_full_path = ""https://"" + req.http.host + req.url.path;
"

  /** The `error` snippet, which turns status 777 into the redirect response. */
  const HandlerText: string := @"  # Cloudlet Redirect handler
  if (obj.status == 777) {
    set obj.status = std.atoi(req.http.X-Response-Code);
    if (obj.status == 301 || obj.status == 302) {
      set obj.http.Location = obj.response;
      set obj.response = if(obj.status == 301, ""Moved Permanently"", ""Found"");
    }
    synthetic if(req.http.X-Response-Body, req.http.X-Response-Body, """");
    return(deliver);
  }
"

  /** What closes the `init` snippet after the last record. */
  const TableClose: string := "}\n"

  /**
   * What closes the `recv` snippet: the dictionary lookup, the choice between
   * a condition match and a table match, and the `error 777` that hands the
   * redirect to the `error` snippet.
   */
  const Epilogue: string := @"

  declare local var.dict_result STRING;
  declare local var.dict_location STRING;
  declare local var.dict_priority STRING;
  declare local var.dict_status_code STRING;
  declare local var.dict_use_query_string STRING;

  // make a table lookup for a strict match result
  set var.dict_result = table.lookup(path_redirect, req.url.path);

  if (var.dict_result ~ ""^(\d+)\|(\d+)\|(useQS|noQS)\|(.*)"") {
    set var.dict_priority = re.group.1;
    set var.dict_status_code = re.group.2;
    set var.dict_use_query_string = re.group.3;
    set var.dict_location = re.group.4;
  }

  // There can be only one of the following scenarios
  // 1) Both, a strict and a custom rules matched. in this case the lower priority number wins
  // 2) Only a custom match
  // 3) Only a strict match
  // 4) No matches

  if (var.cust_priority && var.dict_priority) {
    if (std.atoi(var.cust_priority) < std.atoi(var.dict_priority)) {
      set req.http.X-Error-Resp = if((var.cust_use_query_string==""useQS"" && req.url.qs != """"), var.cust_location + ""?"" + req.url.qs, var.cust_location);
      set req.http.X-Response-Code = var.cust_status_code;
    } else {
      set req.http.X-Error-Resp = if((var.dict_use_query_string==""useQS"" && req.url.qs != """"), var.dict_location + ""?"" + req.url.qs, var.dict_location);
      set req.http.X-Response-Code = var.dict_status_code;
    }
  } elsif (var.cust_priority) {
    set req.http.X-Error-Resp = if((var.cust_use_query_string==""useQS"" && req.url.qs != """"), var.cust_location + ""?"" + req.url.qs, var.cust_location);
    set req.http.X-Response-Code = var.cust_status_code;
  } elseif (var.dict_priority) {
    set req.http.X-Error-Resp = if((var.dict_use_query_string==""useQS"" && req.url.qs != """"), var.dict_location + ""?"" + req.url.qs, var.dict_location);
    set req.http.X-Response-Code = var.dict_status_code;
  } else {
    // no matches
    unset req.http.X-Error-Resp;
  }

  if (req.http.X-Error-Resp) {

    error 777 req.http.X-Error-Resp; // Return redirect
  }

  error 200;

"

  /** One backslash pair that `escapeSpecialChars` looks for. */
  function Escape(c: char): string
  {
    ['\\', c]
  }

  /** The letters `escapeSpecialChars` escapes, in the order of its replaces. */
  const Escaped: seq<char> := ['n', '\'', '"', '&', 'r', 't', 'b', 'f']

  /** The global replaces for the letters `cs`, one after the other. */
  function ReplaceEach(s: string, cs: seq<char>): (r: string)
    ensures r == s
    decreases |cs|
  {
    if cs == [] then s
    else
      ReplaceAllSame(s, Escape(cs[0]));
      ReplaceEach(ReplaceAll(s, Escape(cs[0]), Escape(cs[0])), cs[1..])
  }

  /**
   * `escapeSpecialChars`: eight global replaces, each of a backslash pair by
   * the same pair, so the text comes out unchanged.
   */
  function EscapeSpecialChars(s: string): (r: string)
    ensures r == s
  {
    ReplaceEach(s, Escaped)
  }
}
