# safe_retrieve: nested lookup of the alexa client library

This project models `Alexa::Utils.safe_retrieve(container, *keys)`, the
helper the Alexa Web Information Service client uses to read optional fields
out of a parsed response. It takes a container and a list of keys and walks a
hash of hashes one key at a time. It answers the value found at the end of
the path, or `nil` when the path cannot be followed:

- a key is missing;
- the walk reaches something that is not a hash;
- no keys are given at all.

It never raises.

The implementation file `lib/alexa/utils.rb` is not part of this model. The
behaviour modelled is the one pinned down by the six cases in
`test/utils_test.rb`, each generalised to every container and every key path.

Files:

- `wrappers.dfy` holds `Option` (`None` stands for Ruby's `nil`).
- `utils.dfy` holds the model:
  - `Node` is a value in the container: a `Hash` of keys to nodes, or a `Scalar`.
  - `SafeRetrieve` is the lookup, with `Dig` for the walk on a non-empty path.
  - `IsTrail` is an independent, non-recursive reference definition of "the
    path can be followed". A trail is the list of nodes reached after each
    prefix of the keys, each one the entry of the previous one under the next
    key.
  - The lemmas relate the lookup to trails.

## Model

| member | source | states |
|---|---|---|
| Utils.SafeRetrieve | test/utils_test.rb:26-33 | a non-hash container answers nil; an empty key list answers nil even for a hash, so the container itself is never returned; any answer is a value stored strictly inside the container: the entry under the first key, or a value nested inside that entry |
| Utils.Dig | test/utils_test.rb:6-24 | for a non-empty path, any answer is stored strictly inside the node being walked: it is that node's entry for the first key, or a value nested inside that entry |
| Utils.RetrieveNestedValue | test/utils_test.rb:6-9 | when every key of a non-empty path is present along the way and the path ends on a scalar, the answer is exactly that scalar |
| Utils.MissingKeyIsNil | test/utils_test.rb:11-19 | if the first key is absent from the container, or a later key is absent from the hash reached after the earlier keys matched, the answer is nil |
| Utils.PathPastLeafIsNil | test/utils_test.rb:21-24 | if the walk reaches a non-hash value while keys remain (a path longer than the tree is deep), the answer is nil, not an error |
| Utils.RetrieveFollowsPath | test/utils_test.rb:6-33 | whenever the lookup answers a value, the key list is non-empty and a trail follows the whole path from the container and ends at exactly that value |
| Utils.NoPathIsNil | test/utils_test.rb:11-33 | the lookup is total and every failing case collapses to nil: with no trail along the whole path, the answer is nil |
| Utils.RecordedCases | test/utils_test.rb:6-33 | the six recorded cases on `{first: {second: {third: "Value!"}}}` and on a string container give the asserted answers |

## Left out

- Utils.RetrieveNestedValue: stated only for paths that end on a scalar. No case covers a full path that ends on a nested hash. The model then answers the sub-hash, but no lemma asserts that.
- Keys are modelled as strings (the names of the Ruby symbols used as keys); a Ruby hash may use any object as a key.
- Every non-hash Ruby value (strings, numbers, `nil`, arrays) is one `Scalar` case holding a string; only the hash/non-hash distinction matters to the lookup. A `nil` stored in the container is therefore a `Scalar`: where Ruby answers `nil` for `safe_retrieve({first: nil}, :first)`, the model answers `Some(Scalar(..))`. `Some` means the path was followed, not that Ruby's answer is non-nil.
- The `UrlInfo#fetch` behaviour in `test/api/url_info_test.rb` is not modelled. It goes through a faked HTTP transport and response fixtures whose content is not available, and its XML paths and numeric conversions are not visible.
- Request signing (HMAC, base64, timestamps, URL encoding) is not modelled: its source is not part of this model, and the hashing and encoding are foreign library calls.
- XML parsing, the HTTP transport and raising on unauthorized or forbidden responses are not modelled: they are I/O and error handling around an external service.
