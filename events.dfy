/**
 * What the commands print, as a sequence of events instead of formatted text.
 * `depth` is the nesting level the walker prints the line at; colours, blank
 * lines and indentation are presentation only.
 */
module Events {

  datatype Event =
    | Open(text: string, depth: nat)      // "<text> {"
    | Hole(bytes: nat, depth: nat)         // "--- Hole: <bytes> bytes ---"
    | Line(text: string, depth: nat)      // a member printed on one line
    | Padding(bytes: nat, depth: nat)      // "--- Padding: <bytes> bytes ---"
    | Close(depth: nat)                    // "}"
    | NotAStruct(typeName: string)         // "<typeName> is not a class or struct"
    | TotalHoles(bytes: nat)               // "Total hole size: <bytes>"
    | TotalPadding(bytes: nat)             // "Total padding size: <bytes>"
    | TotalSize(bytes: nat)                // "Total size: <bytes>"
}
