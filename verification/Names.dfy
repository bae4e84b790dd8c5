/** Field names and media types, as they are spelled. */
module Names {
  import opened Octets

  const FROM: Bytes := [70, 114, 111, 109]
  const SENDER: Bytes := [83, 101, 110, 100, 101, 114]
  const REPLY_TO: Bytes := [82, 101, 112, 108, 121, 45, 84, 111]
  const TO: Bytes := [84, 111]
  const CC: Bytes := [67, 99]
  const BCC: Bytes := [66, 99, 99]
  const RETURN_PATH: Bytes := [82, 101, 116, 117, 114, 110, 45, 80, 97, 116, 104]
  const MESSAGE_ID: Bytes := [77, 101, 115, 115, 97, 103, 101, 45, 73, 68]
  const REFERENCES: Bytes := [82, 101, 102, 101, 114, 101, 110, 99, 101, 115]
  const DATE: Bytes := [68, 97, 116, 101]
  const ORIG_DATE: Bytes := [79, 114, 105, 103, 45, 68, 97, 116, 101]
  const RESENT_DATE: Bytes := [82, 101, 115, 101, 110, 116, 45, 68, 97, 116, 101]
  const SUBJECT: Bytes := [83, 117, 98, 106, 101, 99, 116]
  const MIME_VERSION: Bytes := [77, 73, 77, 69, 45, 86, 101, 114, 115, 105, 111, 110]
  const CONTENT_TYPE: Bytes := [67, 111, 110, 116, 101, 110, 116, 45, 84, 121, 112, 101]
  const CONTENT_TRANSFER_ENCODING: Bytes :=
    [67, 111, 110, 116, 101, 110, 116, 45, 84, 114, 97, 110, 115, 102, 101, 114, 45, 69, 110, 99, 111, 100, 105, 110, 103]

  const TEXT: Bytes := [116, 101, 120, 116]
  const MULTIPART: Bytes := [109, 117, 108, 116, 105, 112, 97, 114, 116]
  const MESSAGE: Bytes := [109, 101, 115, 115, 97, 103, 101]
}
