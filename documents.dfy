/**
 Documents as the workers and the page editor see them once the PDF library is taken out:
 a source file either cannot be found, cannot be read, raises when it is decrypted with the
 empty password, or yields its list of pages.  `decrypt("")` reports a wrong password by
 its result, not by raising, so an encrypted file the empty password does not open goes on
 to `reader.pages`, which raises: such a file is `Unreadable`, not `Locked`.
 */
module Documents {

  /**
   An opaque handle on one page object.  Two equal handles are the same page object, so a
   list of handles may alias a page several times.
   */
  type PageRef = nat

  datatype Source =
    | Missing                        // `os.path.exists(path)` is false
    | Unreadable                     // `PdfReader(path)` or `reader.pages` raises
    | Locked                         // encrypted, and `decrypt("")` raises
    | Readable(pages: seq<PageRef>)  // opened (and decrypted if it had to be)
}
