/**
 * The part of the ESP-IDF HTTP server the handlers talk to. A response is
 * modelled as the sequence of httpd_resp_* calls a handler makes on it; what
 * the server library then puts on the wire is not part of this model.
 */
module Http {

  datatype Method = Get | Post | OtherMethod

  /** One httpd_resp_* call on the response of the current request. */
  datatype HttpCall =
    | SetStatus(status: string)                  // httpd_resp_set_status
    | SetType(contentType: string)               // httpd_resp_set_type
    | SetHeader(name: string, value: string)     // httpd_resp_set_hdr
    | Send(body: string)                         // httpd_resp_send
    | SendChunk(data: string)                    // httpd_resp_send_chunk with data
    | EndChunks                                  // httpd_resp_send_chunk(req, NULL, 0)
    | SendErr(code: nat, message: string)        // httpd_resp_send_err
}
