# Scopus identifier harvesting and batch selection, in Dafny

This project models the self-contained logic of `src/web_scrape.py`. The script
searches Scopus for documents, keeps the numeric Scopus ID of every search
result, stores the ID list, and later fetches abstracts one batch at a time.
Three pieces of it are modelled, all in module `WebScrape` (`web_scrape.dfy`).
`Option` and `Result` live in module `Wrappers` (`wrappers.dfy`).

- **Identifier extraction** (`find_scopus_id_in_serch_result`). `re.findall(r"\d+", s)`
  is modelled by `DigitRuns`, the maximal digit runs of `s` from left to right
  (maximality is `DigitRunsMaximal`).
  `FindScopusId` returns the first run, or `None` when there is none. `None`
  is what the Python function returns when it falls off its end. The result
  is proved to be exactly the first maximal digit run, stated by indices in
  `IsFirstRun`: a non-empty all-digit `s[i..j]`, no digit in `s[..i]`, and
  `j == |s|` or `s[j]` not a digit.
- **Identifier collection** (the loop at the end of `search_scopus`).
  `CollectScopusIds` starts from an empty list and appends the extracted ID of
  each result's `dc:identifier` field in a loop. Its loop invariant ties the
  list built so far to the extractor applied to each input. `None` entries
  keep their place.
- **Batch selection** (`select_batch`). `SelectBatch` returns `Failure` with one
  of the two `ValueError`s, checked in the source's order. Otherwise it returns
  Python's slice `[(n-1)*size : n*size]` with both ends clamped to the list
  length (`Slice`). `batch_size` defaults to 25, as in the source. The lemmas
  show that batches `1..k` concatenate back to the whole list once
  `k*size >= |list|`, and that different batch numbers select disjoint,
  increasing positions.

Sequences are values in Dafny, so `SelectBatch` leaves its input unchanged.
Being a function, it is also deterministic. No lemma is needed for either.

## Model

| member | source | states |
|---|---|---|
| WebScrape.DigitRuns | src/web_scrape.py:80-83 | every match of `\d+` is a non-empty string of digits; the list of matches is empty exactly when the input has no digit |
| WebScrape.DigitRunsMaximal | src/web_scrape.py:80-83 | when the input has a digit, the list of matches is its first maximal digit run followed by the matches in the rest of the string after that run, so every match is a maximal run |
| WebScrape.DigitRunsCoverDigits | src/web_scrape.py:80-83 | the matches, concatenated, are exactly the digit characters of the input in their original order |
| WebScrape.FindScopusId | src/web_scrape.py:79-87 | the result is `None` exactly when the input has no digit; otherwise it is a non-empty string of digits |
| WebScrape.FirstRunUnique | src/web_scrape.py:85-86 | a string has at most one first maximal digit run, so "the first number" is well defined |
| WebScrape.FindScopusIdLocates | src/web_scrape.py:83-86 | when a digit exists, the result runs from the first digit up to the next non-digit or the end, and that span is the first maximal run |
| WebScrape.FindScopusIdIsFirstRun | src/web_scrape.py:79-87 | the extractor returns `Some(r)` if and only if `r` is `s[i..j]` for the first maximal digit run `(i, j)` of the input |
| WebScrape.FindScopusIdAfterPrefix | src/web_scrape.py:79-87 | a digit-free prefix, then a number, then nothing or a non-digit: the result is exactly that number |
| WebScrape.FindScopusIdOfScopusField | src/web_scrape.py:79-87 | `"SCOPUS_ID:85186352022"` yields `"85186352022"` |
| WebScrape.CollectScopusIds | src/web_scrape.py:115-119 | one entry per search result, in the same order; entry `k` is the extractor applied to result `k`'s identifier field, so (by `FindScopusId`'s contract) it is `None` exactly when that field has no digit, and such entries are kept, not dropped |
| WebScrape.Slice | src/web_scrape.py:136 | Python slicing with non-negative bounds: the length is `max(0, min(hi, len) - min(lo, len))` and element `k` is `s[lo + k]` |
| WebScrape.SelectBatch | src/web_scrape.py:122-136 | `batch_number < 1` fails with the batch_number error even when the size is also invalid; otherwise `batch_size < 1` fails with the batch_size error; otherwise the batch has length `min(size, max(0, len - (n-1)*size))` and element `k` is `list[(n-1)*size + k]`, so a batch past the end is empty and not an error |
| WebScrape.BatchIsSlice | src/web_scrape.py:136 | for valid arguments, the batch is exactly `list[min((n-1)*size, len) .. min(n*size, len)]`, with the two clamped bounds in order |
| WebScrape.BatchesArePrefix | src/web_scrape.py:136 | batches `1..k` of one size, concatenated, are the first `min(k*size, len)` elements of the list |
| WebScrape.BatchesReassemble | src/web_scrape.py:136 | when `k*size >= len`, batches `1..k` concatenated reproduce the list exactly |
| WebScrape.BatchPositionsOrdered | src/web_scrape.py:136 | for batch numbers `n < n'` of one size, `SelectBatch` returns the slices `list[lo..hi]` and `list[lo'..hi']` with `lo <= hi <= lo' <= hi'`, so the batches are disjoint and keep the list order |
| WebScrape.ThirtyIdsInBatchesOf25 | src/web_scrape.py:122-136 | with 30 IDs and size 25: batch 1 is the first 25, batch 2 the remaining 5, and batch 3 is empty with no error |

## Left out

- Digits are ASCII `'0'..'9'`. In Python 3, `\d` on a `str` also matches other Unicode decimal digits. Those are not modelled.
- CollectScopusIds: takes the `dc:identifier` strings directly. The `ElsSearch(...).execute` call that produces the results (src/web_scrape.py:109-113) talks to the network and is not modelled. A result missing the `dc:identifier` key makes the source raise `KeyError`, and that is not modelled either.
- SelectBatch: both arguments are integers. Python would also accept other types, such as a float `batch_size` that fails later in slicing. Those are not modelled.
- Elsevier SDK calls (`ElsClient`, `AbsDoc`, `FullDoc`, `ElsAffil` reads and writes in `read_affiliations`, `read_scopus_abstract`, `read_science_direct_pii`, `read_science_direct_doi`). They are foreign network calls whose behaviour is not visible.
- `write_scopus_list_to_file` and `read_scopus_list_from_file`. They are file I/O, and their round trip rests on Python's `json` library.
- The fetch loop in `main` (src/web_scrape.py:144-148). It only reads the file and calls the foreign fetch once for each ID of the batch.
- Logging, `.env` loading, all module-level constants (including `BATCH_SIZE = 100`, which only the left-out `main` uses), and the `print` diagnostics. They have no effect on the values the modelled functions compute.
